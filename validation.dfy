/**
 * The contact form's validation as pure functions: the three field checks on trimmed input,
 * their conjunction, and the effect of one submit on the page's error slots.
 */
module Validation {
  import opened Strings
  import opened Email

  datatype Field = NameField | EmailField | MessageField

  /** The values of the form's `name`, `email` and `message` controls. */
  datatype Inputs = Inputs(name: string, email: string, message: string)

  /** An `.error-message` element: its text and whether it carries the `show` class. */
  datatype Slot = Slot(text: string, shown: bool)

  type Slots = map<string, Slot>

  const MinNameLength := 2
  const MinMessageLength := 10

  /** Each value is trimmed before it is checked. */
  function Trimmed(raw: Inputs): Inputs {
    Inputs(Trim(raw.name), Trim(raw.email), Trim(raw.message))
  }

  /** The id of the element that reports a failing field. */
  function SlotId(f: Field): string {
    match f
    case NameField => "name-error"
    case EmailField => "email-error"
    case MessageField => "message-error"
  }

  /** The fixed message shown for a failing field. */
  function ErrorText(f: Field): string {
    match f
    case NameField => "Name must be at least 2 characters long"
    case EmailField => "Please enter a valid email address"
    case MessageField => "Message must be at least 10 characters long"
  }

  /** Whether field `f` of the (already trimmed) input passes its check. */
  predicate Passes(f: Field, inp: Inputs) {
    match f
    case NameField => |inp.name| >= MinNameLength
    case EmailField => IsValidEmail(inp.email)
    case MessageField => |inp.message| >= MinMessageLength
  }

  /** `isValid` after all three checks: their conjunction. */
  predicate IsValid(inp: Inputs) {
    Passes(NameField, inp) && Passes(EmailField, inp) && Passes(MessageField, inp)
  }

  /** The fields whose check fails. */
  function Failing(inp: Inputs): (r: set<Field>)
    ensures forall f :: f in r <==> !Passes(f, inp)
    ensures r == {} <==> IsValid(inp)
  {
    (if Passes(NameField, inp) then {} else {NameField})
    + (if Passes(EmailField, inp) then {} else {EmailField})
    + (if Passes(MessageField, inp) then {} else {MessageField})
  }

  /** The page holds a slot for every field. */
  predicate HasSlots(slots: Slots) {
    SlotId(NameField) in slots && SlotId(EmailField) in slots && SlotId(MessageField) in slots
  }

  /** Every slot with the `show` class removed; texts are kept. */
  function Cleared(slots: Slots): Slots {
    map id | id in slots :: slots[id].(shown := false)
  }

  /** `showError(id, text)`: the slot gets the text and the `show` class. */
  function WithError(slots: Slots, id: string, text: string): Slots {
    slots[id := Slot(text, true)]
  }

  function ReportIfFailing(slots: Slots, f: Field, inp: Inputs): Slots {
    if Passes(f, inp) then slots else WithError(slots, SlotId(f), ErrorText(f))
  }

  /**
   * The slots after a submit of trimmed input `inp`: all cleared, then each check run in
   * order (name, email, message) and every failing one reported.
   */
  function AfterValidation(slots: Slots, inp: Inputs): Slots {
    var cleared := Cleared(slots);
    var afterName := ReportIfFailing(cleared, NameField, inp);
    var afterEmail := ReportIfFailing(afterName, EmailField, inp);
    ReportIfFailing(afterEmail, MessageField, inp)
  }

  /** The ids of the slots that carry `show`. */
  function ShownIds(slots: Slots): set<string> {
    set id | id in slots && slots[id].shown
  }

  function FailingIds(inp: Inputs): set<string> {
    set f | f in Failing(inp) :: SlotId(f)
  }

  lemma SlotIdInjective(f: Field, g: Field)
    ensures SlotId(f) == SlotId(g) <==> f == g
  {
    if f != g {
      assert |SlotId(f)| != |SlotId(g)|;
    }
  }

  /** The failing fields' slot ids, field by field. */
  lemma InFailingIds(inp: Inputs, id: string)
    ensures id in FailingIds(inp) <==>
      (id == SlotId(NameField) && !Passes(NameField, inp))
      || (id == SlotId(EmailField) && !Passes(EmailField, inp))
      || (id == SlotId(MessageField) && !Passes(MessageField, inp))
  {
    if id in FailingIds(inp) {
      var f :| f in Failing(inp) && SlotId(f) == id;
      assert !Passes(f, inp);
    } else {
      assert NameField in Failing(inp) ==> SlotId(NameField) in FailingIds(inp);
      assert EmailField in Failing(inp) ==> SlotId(EmailField) in FailingIds(inp);
      assert MessageField in Failing(inp) ==> SlotId(MessageField) in FailingIds(inp);
    }
  }

  /** One slot after a submit. */
  lemma SlotAfterValidation(slots: Slots, inp: Inputs, id: string)
    requires id in slots
    ensures id in AfterValidation(slots, inp)
    ensures AfterValidation(slots, inp)[id] ==
      if id == SlotId(MessageField) && !Passes(MessageField, inp) then Slot(ErrorText(MessageField), true)
      else if id == SlotId(EmailField) && !Passes(EmailField, inp) then Slot(ErrorText(EmailField), true)
      else if id == SlotId(NameField) && !Passes(NameField, inp) then Slot(ErrorText(NameField), true)
      else Slot(slots[id].text, false)
  {
    assert Cleared(slots)[id] == Slot(slots[id].text, false);
  }

  /**
   * What a submit leaves in the slots: the same slots; a failing field's slot shows its
   * message; every other slot is hidden and keeps its old text.
   */
  lemma AfterValidationSlots(slots: Slots, inp: Inputs)
    requires HasSlots(slots)
    ensures var r := AfterValidation(slots, inp);
      r.Keys == slots.Keys
      && (forall f :: f in Failing(inp) ==> r[SlotId(f)] == Slot(ErrorText(f), true))
      && (forall id :: id in slots && id !in FailingIds(inp) ==> r[id] == Slot(slots[id].text, false))
  {
    var r := AfterValidation(slots, inp);
    assert r.Keys == slots.Keys;
    forall f | f in Failing(inp) ensures r[SlotId(f)] == Slot(ErrorText(f), true) {
      SlotAfterValidation(slots, inp, SlotId(f));
      SlotIdInjective(f, NameField);
      SlotIdInjective(f, EmailField);
      SlotIdInjective(f, MessageField);
    }
    forall id | id in slots && id !in FailingIds(inp)
      ensures r[id] == Slot(slots[id].text, false)
    {
      SlotAfterValidation(slots, inp, id);
      InFailingIds(inp, id);
    }
  }

  /** After a submit the shown slots are exactly the failing fields' slots. */
  lemma ShownExactlyFailing(slots: Slots, inp: Inputs)
    requires HasSlots(slots)
    ensures ShownIds(AfterValidation(slots, inp)) == FailingIds(inp)
  {
    var r := AfterValidation(slots, inp);
    AfterValidationSlots(slots, inp);
    forall id | id in slots && id !in FailingIds(inp) ensures id !in ShownIds(r) {
      assert !r[id].shown;
    }
    forall id | id in FailingIds(inp) ensures id in ShownIds(r) {
      var f :| f in Failing(inp) && SlotId(f) == id;
      assert r[id].shown;
    }
  }

  /** No error is shown exactly when the input is valid. */
  lemma NoErrorIffValid(slots: Slots, inp: Inputs)
    requires HasSlots(slots)
    ensures ShownIds(AfterValidation(slots, inp)) == {} <==> IsValid(inp)
  {
    ShownExactlyFailing(slots, inp);
    if !IsValid(inp) {
      var f :| f in Failing(inp);
      assert SlotId(f) in FailingIds(inp);
    }
  }

  /** Submitting the same input again leaves the slots as they were after the first submit. */
  lemma AfterValidationIdempotent(slots: Slots, inp: Inputs)
    requires HasSlots(slots)
    ensures AfterValidation(AfterValidation(slots, inp), inp) == AfterValidation(slots, inp)
  {
    var once := AfterValidation(slots, inp);
    AfterValidationSlots(slots, inp);
    assert HasSlots(once);
    AfterValidationSlots(once, inp);
    var twice := AfterValidation(once, inp);
    forall id | id in once ensures twice[id] == once[id] {
      if id !in FailingIds(inp) {
        assert once[id] == Slot(slots[id].text, false);
      } else {
        var f :| f in Failing(inp) && SlotId(f) == id;
      }
    }
  }

  /** Name " A ", e-mail "bad", message "short": once trimmed, every check fails. */
  lemma AllFailExample()
    ensures Failing(Trimmed(Inputs(" A ", "bad", "short"))) == {NameField, EmailField, MessageField}
  {
    assert Trimmed(Inputs(" A ", "bad", "short")) == Inputs("A", "bad", "short") by {
      NoEdgeSpace("bad");
      NoEdgeSpace("short");
      assert TrimStart(" A ") == "A ";
      assert TrimEnd("A ") == "A";
    }
    assert !IsValidEmail("bad") by {
      assert '@' !in "bad";
    }
  }

  /** Trimming the valid example removes only the e-mail's leading space. */
  lemma TrimmedPassInput()
    ensures Trimmed(Inputs("Al", " a@b.co", "this is long enough"))
      == Inputs("Al", "a@b.co", "this is long enough")
  {
    NoEdgeSpace("Al");
    NoEdgeSpace("this is long enough");
    assert TrimStart(" a@b.co") == "a@b.co";
    NoEdgeSpace("a@b.co");
  }

  /** Name "Al", e-mail " a@b.co", message "this is long enough": once trimmed, every check passes. */
  lemma AllPassExample()
    ensures IsValid(Trimmed(Inputs("Al", " a@b.co", "this is long enough")))
  {
    TrimmedPassInput();
    assert "a" + "@" + "b.co" == "a@b.co";
    ValidFromParts("a", "b.co", 1);
  }
}
