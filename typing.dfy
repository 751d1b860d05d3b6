/**
 * The hero title's typing effect: `typeWriter` clears the element, then its inner `type`
 * appends one character per call and re-arms a timer while characters remain.
 */
module Typing {

  /** `typeWriter`'s delay between two characters when the caller gives none, in milliseconds. */
  const DefaultSpeed := 100

  class Typewriter {
    const text: string
    /** The delay between two calls of `type`, in milliseconds. */
    const speed: int
    /** The closure's index into `text`. */
    var i: nat
    /** The element's `textContent`. */
    var content: string
    /** Whether a `setTimeout(type, speed)` is pending, and when it fires. */
    var scheduled: bool
    var due: int

    /** What has been typed is the prefix of `text` of length `i`. */
    ghost predicate Typed()
      reads this
    {
      i <= |text| && content == text[..i]
    }

    /** Besides, the timer stops being re-armed only once the whole text is typed. */
    ghost predicate Valid()
      reads this
    {
      Typed() && (!scheduled ==> i == |text|)
    }

    /** `typeWriter(element, text, speed)` at time `now`: clear, then call `type` once. */
    constructor (text: string, now: int, speed: int := DefaultSpeed)
      ensures Valid() && this.text == text && this.speed == speed
      ensures i == (if |text| == 0 then 0 else 1)
      ensures scheduled == (|text| > 0) && (scheduled ==> due == now + speed)
    {
      this.text := text;
      this.speed := speed;
      content := "";
      i := 0;
      scheduled := false;
      due := now;
      new;
      Type(now);
    }

    /** One call of `type` at time `now`. */
    method Type(now: int)
      requires Typed()
      modifies this
      ensures Valid()
      ensures old(i) < |text| ==> (i == old(i) + 1 && content == old(content) + [text[old(i)]]
        && scheduled && due == now + speed)
      ensures old(i) == |text| ==> (i == old(i) && content == old(content) && !scheduled)
    {
      if i < |text| {
        content := content + [text[i]];
        i := i + 1;
        scheduled := true;
        due := now + speed;
      } else {
        scheduled := false;
      }
    }

    /** The pending timer fires at `now`. */
    method Tick(now: int)
      requires Valid() && scheduled && due <= now
      modifies this
      ensures Valid()
      ensures old(i) < |text| ==> (i == old(i) + 1 && content == text[..i]
        && scheduled && due == now + speed)
      ensures old(i) == |text| ==> (i == old(i) && content == old(content) && !scheduled)
    {
      Type(now);
    }
  }

  function Min(a: int, b: int): int {
    if a <= b then a else b
  }

  /**
   * Start the effect at `start` and let the pending timer fire up to `firings` times, each
   * as soon as it is due. The element then shows the first `firings + 1` characters (all of
   * them once `firings` reaches the length), appended one per call, and a timer is still
   * pending exactly while the text is not finished off by its closing call.
   */
  method TypeOut(text: string, speed: int, start: int, firings: nat)
    returns (shown: string, appends: nat, pending: bool)
    ensures shown == text[..Min(firings + 1, |text|)]
    ensures appends == Min(firings + 1, |text|)
    ensures pending == (firings < |text|)
    ensures firings >= |text| ==> shown == text && !pending
  {
    var tw := new Typewriter(text, start, speed);
    appends := tw.i;
    var fired := 0;
    while fired < firings && tw.scheduled
      invariant tw.Valid() && tw.text == text && fired <= firings
      invariant tw.i == Min(fired + 1, |text|) && appends == tw.i
      invariant tw.scheduled == (fired < |text|)
    {
      var before := tw.i;
      tw.Tick(tw.due);
      if tw.i > before {
        appends := appends + 1;
      }
      fired := fired + 1;
    }
    shown := tw.content;
    pending := tw.scheduled;
  }
}
