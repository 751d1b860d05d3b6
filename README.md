# Contact form, typing effect, debounce and mobile menu of a landing-page script

This project models the parts of the landing page's `script.js` that carry logic of their
own, and proves what that logic promises:

- **Contact-form validation** (`Strings`, `Email`, `Validation`): the three values are
  trimmed; the name needs at least 2 characters, the message at least 10, and the e-mail
  must match `^[^\s@]+@[^\s@]+\.[^\s@]+$`. The pattern's language is stated directly (a
  split into local part, `@`, host and the rest after a dot) and proved equal to a
  character-level check: no white space, exactly one `@`, a non-empty part before it, and a
  domain with a `.` that is neither its first nor its last character. The effect of a submit
  on the page's `.error-message` slots (a map from element id to text and `show` flag) is a
  function, with lemmas: the shown slots are exactly the failing fields' slots, each with its
  fixed message; nothing is shown exactly when the input is valid; submitting twice changes
  nothing more.
- **Submit handler and simulated send** (`Contact`): classes for the error slots, the send
  button and the form. `Submit` always suppresses the default action, clears and refills the
  slots as above, and starts the send only on valid input: "Sending..." and disabled, after
  1500 ms "Message Sent!" on the green background, after 2000 ms more the captured text
  again, enabled, on the red background, with the form reset. The two nested timers are a
  three-phase machine (`Idle`, `Sending`, `Sent`) driven by `OnTimer(now)` calls of a logical
  clock.
- **Typing effect** (`Typing`): `typeWriter` clears the element and calls `type`, which
  appends `text[i]`, increments `i` and re-arms its timer while `i` is below the length.
  The class keeps `content == text[..i]`; the timer stops only once the text is complete.
- **Debounce** (`Debounce`): one pending slot (arguments, deadline) that every call
  replaces; firing runs `func` once with the latest arguments; a burst of calls less than
  `wait` apart yields exactly one invocation, with the last call's arguments.
- **Mobile menu** (`Menu`): the hamburger click toggles both `active` flags, a link click
  clears both; equal flags stay equal, and unequal ones become equal exactly once a link is
  clicked.

Timers and the event loop are replaced by explicit calls that carry the current time. The
white-space set behind `\s` and `trim` is written out as ECMAScript's WhiteSpace and
LineTerminator code points; strings are sequences of characters.

At the end of the send the code sets a red gradient rather than restoring the earlier
background (script.js:212). `debounce` runs the effect only once the calls stop for `wait`
milliseconds, so a sustained stream of calls never runs it.

## Model

| member | source | states |
|---|---|---|
| Strings.TrimStartSuffix | script.js:167-169 | trimming the start keeps a suffix, drops only white space, and the rest does not start with white space |
| Strings.TrimEndPrefix | script.js:167-169 | trimming the end keeps a prefix, drops only white space, and the rest does not end with white space |
| Strings.TrimIsTrimOf | script.js:167-169 | `trim` yields a slice of the value, with only white space around it and none at its two ends |
| Strings.TrimOfUnique | script.js:167-169 | a value has exactly one such trimmed form |
| Strings.NoEdgeSpace | script.js:167-169 | a value that neither starts nor ends with white space is unchanged by `trim` |
| Strings.TrimIdempotent | script.js:167-169 | trimming a trimmed value changes nothing |
| Email.ValidEmailIffMatches | script.js:185-186 | the character-level check accepts exactly the strings the e-mail pattern matches (both directions) |
| Email.ValidEmailMatches | script.js:185-186 | no white space, one `@` with something before it and an inner dot after it implies a match of the pattern |
| Email.MatchesValidEmail | script.js:185-186 | a match of the pattern has no white space, exactly one `@`, a non-empty local part and an inner dot in the domain |
| Email.AcceptsExample | script.js:185-186 | `user@example.com` is accepted |
| Email.RejectsMissingDot | script.js:185-186 | `user@example` is rejected |
| Email.RejectsSpace | script.js:185-186 | `user example.com` is rejected |
| Validation.Failing | script.js:176-195 | a field fails exactly when its check fails; no field fails exactly when `isValid` stays true |
| Validation.SlotAfterValidation | script.js:172-195 | after a submit a slot shows its field's message if that field fails, and is otherwise hidden with its old text |
| Validation.AfterValidationSlots | script.js:172-195 | a submit keeps the same slots, shows every failing field's fixed message, and hides every other slot keeping its text |
| Validation.ShownExactlyFailing | script.js:172-195 | after a submit the shown slots are exactly the failing fields' slots |
| Validation.NoErrorIffValid | script.js:176-197 | no slot is shown exactly when all three checks pass |
| Validation.AfterValidationIdempotent | script.js:172-195 | submitting the same input again leaves the slots unchanged |
| Validation.AllFailExample | script.js:167-195 | the raw values ` A `, `bad`, `short`, once trimmed, fail all three checks |
| Validation.AllPassExample | script.js:167-195 | the raw values `Al`, ` a@b.co`, `this is long enough`, once trimmed, pass all three checks |
| Contact.TestEmail | script.js:185-186 | `emailRegex.test` returns true exactly when the e-mail pattern matches the value |
| Contact.ErrorPanel.ClearAll | script.js:172-174 | every slot loses `show`, texts and ids unchanged |
| Contact.ErrorPanel.ShowError | script.js:219-223 | the slot gets the message and `show`; no other slot changes |
| Contact.ErrorPanel.Validate | script.js:172-195 | the slots become the after-submit slots, and the result is the conjunction of the three checks |
| Contact.SendButton.StartSending | script.js:199-203 | the text is captured, the button reads "Sending..." and is disabled, and the 1500 ms timer is armed |
| Contact.SendButton.OnTimer | script.js:205-215 | a due first timer shows "Message Sent!" on the green background and arms the 2000 ms timer; a due second timer restores the captured text, re-enables the button and sets the red background; otherwise nothing changes |
| Contact.ContactForm.Submit | script.js:163-217 | the default is always prevented; the slots become the after-submit slots of the trimmed values; the send starts exactly when the input is valid, and otherwise the button is untouched |
| Contact.ContactForm.OnTimer | script.js:205-215 | as for the button, and the second timer also resets the three fields |
| Contact.SendTimeline | script.js:197-215 | for any valid input: "Sending..." until 1500 ms, "Message Sent!" until 3500 ms, then the first text, enabled, on red, with empty fields |
| Contact.InvalidSubmitTwice | script.js:163-195 | two submits of the same invalid input leave the same slots, showing exactly the failing fields, and an untouched button |
| Typing.Typewriter.constructor | script.js:271-273 | the delay defaults to 100 ms; the element is cleared and `type` runs once: one character is typed unless the text is empty, and a timer is pending exactly then |
| Typing.Typewriter.Type | script.js:275-281 | below the length, `text[i]` is appended, `i` incremented and the timer re-armed `speed` later; at the length nothing is typed and no timer is armed |
| Typing.Typewriter.Tick | script.js:279 | a due timer runs `type`, keeping `content == text[..i]` |
| Typing.TypeOut | script.js:271-284 | after `k` timer firings the element shows the first `k + 1` characters, one append per call; from `k` equal to the length on it shows the whole text and no timer is pending |
| Debounce.Debouncer.Call | script.js:309-315 | called before any pending timer is due, the pending timer is replaced by one with the new arguments, due `wait` later; `func` is not called |
| Debounce.Debouncer.Fire | script.js:310-313 | a due timer runs `func` once with its arguments and leaves nothing pending; otherwise nothing changes |
| Debounce.Burst | script.js:307-317 | a burst of calls less than `wait` apart, same-time calls included, yields exactly one call of `func`, with the last call's arguments |
| Menu.EqualStaysEqual | script.js:18-28 | if the two `active` flags start equal, they are equal after any sequence of clicks |
| Menu.ApartUntilLink | script.js:18-28 | flags that start unequal are equal after a sequence of clicks exactly when it contains a link click |
| Menu.LinkThenEqual | script.js:24-28 | after any link click the flags stay equal |
| Menu.MobileMenu.ClickHamburger | script.js:18-21 | both flags flip, so equal flags stay equal |
| Menu.MobileMenu.ClickLink | script.js:24-28 | both flags end cleared |

## Left out

- DOM lookups, `addEventListener` wiring, `FormData`, `scrollIntoView`, the intersection
  observer and the injected keyframe style (script.js:1-7, 31-43, 92-139): browser plumbing
  with nothing to state; the form's values, slots and button are handed to the classes.
- The navbar scroll class (script.js:8-15), the social-icon hover transforms (script.js:295-304),
  the parallax, tilt and floating-element transforms and transition delays (script.js:45-59,
  141-160, 225-238, 319-335), the ripple (script.js:61-90), the card flips (script.js:240-268)
  and the load fade-in (script.js:337-345): single style writes, mostly floating-point
  arithmetic feeding CSS strings. The page applies `debounce` to its parallax handler, but the
  undebounced handler of script.js:46-59 still writes the same transform on every move, so
  `debounce` is modelled as a general combinator only.
- The load handler that starts the typing effect (script.js:287-293) is not modelled beyond
  `typeWriter` itself, which takes any text and delay.
- Real timers: the clock is a parameter; a timer fires when a caller reads a time at or
  after its due time. Timer-id bookkeeping and the redundant `clearTimeout` inside `later`
  are not represented; after `later` runs, nothing is pending.
- Debounce.Debouncer.Call: requires that no pending timer has come due, since the event loop
  runs a due timer before it dispatches the next call. A caller must `Fire` a due timer
  first; a call arriving after the deadline without that is not modelled.
- JavaScript string details: UTF-16 code units are not modelled; a string is a sequence of
  characters and its length is the sequence's length.
- `contactForm.reset()` is modelled as emptying the three fields: the markup is assumed to set
  no default values.
- Contact.ContactForm.Submit: requires the send button to be enabled. The browser does not
  submit a form through a disabled submit button, so the handler never runs while a send is
  in progress; a second, overlapping timer chain is therefore not modelled.
- Contact.ErrorPanel.ShowError: requires the slot element to exist; the source would throw on
  a missing element, and the page's markup has the three slots.
