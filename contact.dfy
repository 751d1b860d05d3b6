/**
 * The contact form's submit handler, `showError`, and the simulated send: the error slots,
 * the send button and the form as objects updated in place, the two nested timers as a
 * three-phase machine driven by a logical clock.
 */
module Contact {
  import opened Validation

  const SendingLabel := "Sending..."
  const SentLabel := "Message Sent!"
  const SuccessBackground := "linear-gradient(45deg, #10b981, #059669)"
  const RestoredBackground := "linear-gradient(45deg, #dc2626, #ef4444)"
  /** Delay from a valid submit to the "sent" state, in milliseconds. */
  const SentDelay := 1500
  /** Further delay from the "sent" state back to idle, in milliseconds. */
  const RestoreDelay := 2000

  /** `emailRegex.test(email)`: true exactly when the pattern matches. */
  method TestEmail(email: string) returns (ok: bool)
    ensures ok <==> Email.MatchesPattern(email)
  {
    ok := Email.IsValidEmail(email);
    Email.ValidEmailIffMatches(email);
  }

  /** The page's `.error-message` elements, keyed by id. */
  class ErrorPanel {
    var slots: Slots

    constructor (slots: Slots)
      ensures this.slots == slots
    {
      this.slots := slots;
    }

    /** Removes `show` from every slot, one element at a time. */
    method ClearAll()
      modifies this
      ensures slots.Keys == old(slots).Keys
      ensures slots == Cleared(old(slots))
    {
      var pending := slots.Keys;
      while pending != {}
        invariant pending <= slots.Keys && slots.Keys == old(slots).Keys
        invariant forall id :: id in slots ==>
          slots[id] == if id in pending then old(slots)[id] else old(slots)[id].(shown := false)
        decreases pending
      {
        var id :| id in pending;
        slots := slots[id := slots[id].(shown := false)];
        pending := pending - {id};
      }
    }

    /** `showError`: sets the slot's text and adds `show`. */
    method ShowError(id: string, text: string)
      requires id in slots
      modifies this
      ensures slots.Keys == old(slots).Keys
      ensures slots == WithError(old(slots), id, text)
    {
      slots := slots[id := Slot(text, true)];
    }

    /**
     * script.js:172-195: hide every slot, then run the three checks without
     * stopping at the first failure, reporting each failing field.
     */
    method Validate(inp: Inputs) returns (isValid: bool)
      requires HasSlots(slots)
      modifies this
      ensures slots.Keys == old(slots).Keys
      ensures slots == AfterValidation(old(slots), inp)
      ensures isValid == IsValid(inp)
    {
      ClearAll();
      ghost var cleared := slots;
      isValid := true;
      if |inp.name| < MinNameLength {
        ShowError("name-error", "Name must be at least 2 characters long");
        isValid := false;
      }
      ghost var afterName := slots;
      assert afterName == ReportIfFailing(cleared, NameField, inp);
      var emailOk := TestEmail(inp.email);
      Email.ValidEmailIffMatches(inp.email);
      if !emailOk {
        ShowError("email-error", "Please enter a valid email address");
        isValid := false;
      }
      ghost var afterEmail := slots;
      assert afterEmail == ReportIfFailing(afterName, EmailField, inp) by {
        if emailOk {
          assert afterEmail == afterName;
        } else {
          assert afterEmail == WithError(afterName, SlotId(EmailField), ErrorText(EmailField));
        }
      }
      if |inp.message| < MinMessageLength {
        ShowError("message-error", "Message must be at least 10 characters long");
        isValid := false;
      }
      assert slots == ReportIfFailing(afterEmail, MessageField, inp);
    }
  }

  /** What the user sees of the send button. */
  datatype View = View(text: string, disabled: bool, background: string)

  /**
   * The pending timer of the simulated send: none, the 1500 ms one, or the 2000 ms one.
   * `original` is the text captured when the send started; `due` the time the timer fires.
   */
  datatype Phase = Idle | Sending(original: string, due: int) | Sent(original: string, due: int)

  /** What a call of `OnTimer` did. */
  datatype Step = Nothing | ShowedSent | Restored

  /**
   * The form's `.send-button`: its text, `disabled` flag and inline background, with the
   * timer chain that the submit handler starts on it.
   */
  class SendButton {
    var text: string
    var disabled: bool
    var background: string
    var phase: Phase

    /** The button shows the phase it is in, and is disabled exactly while a timer is pending. */
    ghost predicate Valid()
      reads this
    {
      match phase
      case Idle => !disabled
      case Sending(_, _) => text == SendingLabel && disabled
      case Sent(_, _) => text == SentLabel && disabled && background == SuccessBackground
    }

    function Display(): View
      reads this
    {
      View(text, disabled, background)
    }

    constructor (caption: string)
      ensures Valid() && phase == Idle && Display() == View(caption, false, "")
    {
      text := caption;
      disabled := false;
      background := "";
      phase := Idle;
    }

    /** script.js:200-205: capture the text, show "Sending..." and disable; start the 1500 ms timer. */
    method StartSending(now: int)
      requires Valid() && phase == Idle
      modifies this
      ensures Valid() && phase == Sending(old(text), now + SentDelay)
      ensures Display() == View(SendingLabel, true, old(background))
    {
      var originalText := text;
      text := SendingLabel;
      disabled := true;
      phase := Sending(originalText, now + SentDelay);
    }

    /**
     * The clock reads `now`: the pending timer fires if it is due. The first shows success
     * and starts the 2000 ms timer; the second restores the captured text, re-enables the
     * button and sets the closing background.
     */
    method OnTimer(now: int) returns (step: Step)
      requires Valid()
      modifies this
      ensures Valid()
      ensures step != Nothing <==> !old(phase).Idle? && old(phase).due <= now
      ensures step == Nothing ==> (phase == old(phase) && Display() == old(Display()))
      ensures step == ShowedSent <==> old(phase).Sending? && old(phase).due <= now
      ensures step == ShowedSent ==> (phase == Sent(old(phase).original, now + RestoreDelay)
        && Display() == View(SentLabel, true, SuccessBackground))
      ensures step == Restored ==> (phase == Idle
        && Display() == View(old(phase).original, false, RestoredBackground))
    {
      step := Nothing;
      match phase
      case Idle =>
      case Sending(originalText, due) =>
        if due <= now {
          text := SentLabel;
          background := SuccessBackground;
          phase := Sent(originalText, now + RestoreDelay);
          step := ShowedSent;
        }
      case Sent(originalText, due) =>
        if due <= now {
          text := originalText;
          disabled := false;
          background := RestoredBackground;
          phase := Idle;
          step := Restored;
        }
    }
  }

  /** The contact form: its three controls, its error slots and its send button. */
  class ContactForm {
    var fields: Inputs
    const panel: ErrorPanel
    const button: SendButton

    ghost predicate Valid()
      reads this, panel, button
    {
      HasSlots(panel.slots) && button.Valid()
    }

    constructor (fields: Inputs, slots: Slots, caption: string)
      requires HasSlots(slots)
      ensures Valid() && fresh(panel) && fresh(button)
      ensures this.fields == fields && panel.slots == slots
      ensures button.phase == Idle && button.Display() == View(caption, false, "")
    {
      this.fields := fields;
      panel := new ErrorPanel(slots);
      button := new SendButton(caption);
    }

    /**
     * The submit handler. The default action is always suppressed; the slots are cleared,
     * all three checks run and each failing one is reported; only a valid input starts the
     * send. A submit reaches the handler only while the send button is enabled.
     */
    method Submit(now: int) returns (defaultPrevented: bool, sending: bool)
      requires Valid() && !button.disabled
      modifies panel, button
      ensures Valid() && defaultPrevented
      ensures panel.slots == AfterValidation(old(panel.slots), Trimmed(old(fields)))
      ensures sending == IsValid(Trimmed(old(fields)))
      ensures sending ==> (button.phase == Sending(old(button.text), now + SentDelay)
        && button.Display() == View(SendingLabel, true, old(button.background)))
      ensures !sending ==> (button.phase == Idle && button.Display() == old(button.Display()))
    {
      defaultPrevented := true;
      var inp := Trimmed(fields);
      var isValid := panel.Validate(inp);
      ghost var reported := panel.slots;
      if isValid {
        button.StartSending(now);
      }
      assert panel.slots == reported;
      sending := isValid;
    }

    /** The clock reads `now`; when the second timer fires the form is also reset. */
    method OnTimer(now: int) returns (step: Step)
      requires Valid()
      modifies this, button
      ensures Valid() && panel.slots == old(panel.slots)
      ensures step != Nothing <==> !old(button.phase).Idle? && old(button.phase).due <= now
      ensures step == Nothing ==> (button.phase == old(button.phase)
        && button.Display() == old(button.Display()) && fields == old(fields))
      ensures step == ShowedSent ==> (old(button.phase).Sending?
        && button.phase == Sent(old(button.phase).original, now + RestoreDelay)
        && button.Display() == View(SentLabel, true, SuccessBackground) && fields == old(fields))
      ensures step == Restored ==> (old(button.phase).Sent? && button.phase == Idle
        && button.Display() == View(old(button.phase).original, false, RestoredBackground)
        && fields == Inputs("", "", ""))
    {
      step := button.OnTimer(now);
      if step == Restored {
        fields := Inputs("", "", "");
      }
    }
  }

  /**
   * A valid submit at `t0` on an idle page, with the clock read just before and at each
   * deadline: the button reads "Sending..." until 1500 ms, "Message Sent!" until 3500 ms,
   * then its first label again, enabled, and the form is empty.
   */
  method SendTimeline(raw: Inputs, slots: Slots, caption: string, t0: int)
    returns (views: seq<View>, finalFields: Inputs)
    requires HasSlots(slots) && IsValid(Trimmed(raw))
    ensures views == [View(SendingLabel, true, ""), View(SendingLabel, true, ""),
                      View(SentLabel, true, SuccessBackground), View(SentLabel, true, SuccessBackground),
                      View(caption, false, RestoredBackground)]
    ensures finalFields == Inputs("", "", "")
  {
    var form := new ContactForm(raw, slots, caption);
    var _, _ := form.Submit(t0);
    views := [form.button.Display()];
    var _ := form.OnTimer(t0 + SentDelay - 1);
    views := views + [form.button.Display()];
    var _ := form.OnTimer(t0 + SentDelay);
    views := views + [form.button.Display()];
    var _ := form.OnTimer(t0 + SentDelay + RestoreDelay - 1);
    views := views + [form.button.Display()];
    var _ := form.OnTimer(t0 + SentDelay + RestoreDelay);
    views := views + [form.button.Display()];
    finalFields := form.fields;
  }

  /**
   * Two submits of the same invalid input: both leave the same slots, showing exactly the
   * failing fields, and the button untouched.
   */
  method InvalidSubmitTwice(raw: Inputs, slots: Slots, caption: string)
    returns (first: Slots, second: Slots, view: View)
    requires HasSlots(slots) && !IsValid(Trimmed(raw))
    ensures first == second
    ensures ShownIds(second) == FailingIds(Trimmed(raw)) != {}
    ensures view == View(caption, false, "")
  {
    var form := new ContactForm(raw, slots, caption);
    var _, _ := form.Submit(0);
    first := form.panel.slots;
    var _, _ := form.Submit(0);
    second := form.panel.slots;
    AfterValidationIdempotent(slots, Trimmed(raw));
    ShownExactlyFailing(slots, Trimmed(raw));
    NoErrorIffValid(slots, Trimmed(raw));
    view := form.button.Display();
  }
}
