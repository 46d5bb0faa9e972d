# Wedding site script: a verified model of its decision logic

`script.js` wires up a single-page wedding site. Beneath the DOM plumbing it
makes four kinds of decision, and this project models each of them in Dafny
and proves what the page promises about them.

- **Gallery lightbox** (`Lightbox`). The images are collected once from the
  gallery items. Each caption is the overlay text, else the `alt`. A cursor
  moves over the images with wrap-around, and the viewer opens and closes
  from item clicks, its buttons, a click on its background and the keyboard.
  `GalleryLightbox` is a class whose fields are the state the listeners
  change: the cursor, the "active" class, the displayed `src`/caption and the
  body's `overflow`. Its invariant `Valid` says three things:
  - the cursor is always on an image;
  - scrolling is locked exactly while the viewer is open;
  - an open viewer shows the current image.
- **Navigation** (`Navigation`). `Nav` holds three class flags: "scrolled" on
  the bar, and "active" on the menu and on its toggle button. The handlers
  are the scroll listener, the toggle click, the link clicks and the
  document's click; `Nav.Click` composes them for one click as it bubbles.
  The menu and button flags stay equal (`Synced`).
- **Countdown** (`Countdown`). `updateCountdown` splits a millisecond
  difference into days, hours, minutes and seconds and formats them
  (`String`, `padStart`). It is pure arithmetic, so it is written as functions
  with lemmas. `JsText` supplies `String(n)` for naturals, `padStart`, and the
  decimal reading used to prove that the text reads back as the number.
- **RSVP form** (`Rsvp`, `Email`, `JsText`).
  - `validateForm` is a method that accumulates errors and `isValid` step by
    step. It is proved equal to the pure `ValidationErrors`, whose contract
    says when each message appears.
  - `isValidEmail` is a left-to-right automaton for
    `^[^\s@]+@[^\s@]+\.[^\s@]+$`. It is proved equal both to a piece-by-piece
    reading of the pattern and to a whole-string description of the accepted
    shape.
  - `trim` is JavaScript's `String.prototype.trim` over its whitespace set.
  - `RsvpForm` is a class with the fields the handlers read and write:
    - the field values;
    - the `events` checkboxes, as an `array<bool>` cleared in place by a loop;
    - the details section;
    - the `showError` calls of the last validation;
    - the submit button;
    - the form and the success panel.

  `Submit` runs validation and posts only a valid form. `SendRequest` is the
  `try`/`catch` part: it is told whether the request went through.

The clock, the network, timers and the browser's own objects are not
modelled. The remaining difference (in milliseconds) and the request's
outcome are parameters. The scroll offset is a `real`, as `pageYOffset` is a
floating-point number.

## Model

| member | source | states |
|---|---|---|
| Navigation.Nav.constructor | script.js:19-22 | The classes as the markup has them before any handler runs: not "scrolled", menu and button inactive. |
| Navigation.Nav.OnScroll | script.js:27-38 | "scrolled" is set exactly when the offset exceeds 100; the menu flags are untouched. |
| Navigation.Nav.OnToggleClick | script.js:41-44 | Both "active" flags flip, so equal flags stay equal; "scrolled" is untouched. |
| Navigation.Nav.OnLinkClick | script.js:47-52 | Both "active" flags are cleared. |
| Navigation.Nav.OnDocumentClick | script.js:55-60 | The menu state changes exactly when the target is outside the bar and the menu is open, and it then closes; otherwise nothing changes. |
| Navigation.Nav.Click | script.js:41-60 | Across a whole bubbling click the flags stay equal. A toggle click flips the menu, a link click or an outside click closes it, and any other click inside the bar leaves it alone. |
| Lightbox.CaptionOf | script.js:120 | The caption fallback; its meaning is stated by `Lightbox.CollectImages`. |
| Lightbox.CollectImages | script.js:109-128 | One image per item, in order, with the item's `src` and with the overlay text as caption when there is an overlay, else the `alt`. |
| Lightbox.NextIndex | script.js:146-149 | The next index is in range and wraps from the last image to the first. |
| Lightbox.PrevIndex | script.js:151-154 | The previous index is in range and wraps from the first image to the last (n-1). |
| Lightbox.PrevNextInverse | script.js:146-154 | Previous undoes next and next undoes previous. |
| Lightbox.AdvanceIsModular | script.js:146-149 | k consecutive nexts from i land on (i + k) mod n. |
| Lightbox.FullCycle | script.js:146-149 | n consecutive nexts return to the starting image. |
| Lightbox.GalleryLightbox.constructor | script.js:109-128 | The viewer starts closed on image 0 with the images collected from the items. |
| Lightbox.GalleryLightbox.UpdateLightboxImage | script.js:141-144 | The picture and caption shown are those of the current image; nothing else changes. |
| Lightbox.GalleryLightbox.OpenLightbox | script.js:130-134 | The viewer is open, shows the current image and locks body scrolling. |
| Lightbox.GalleryLightbox.CloseLightbox | script.js:136-139 | The viewer is closed and scrolling unlocked; the cursor and the picture stay. |
| Lightbox.GalleryLightbox.NextImage | script.js:146-149 | The cursor moves to the next index and that image is shown; open/closed is untouched. |
| Lightbox.GalleryLightbox.PrevImage | script.js:151-154 | The cursor moves to the previous index and that image is shown; open/closed is untouched. |
| Lightbox.GalleryLightbox.OnItemClick | script.js:124-127 | Clicking item i opens the viewer with the cursor on i, showing image i. |
| Lightbox.GalleryLightbox.OnOverlayClick | script.js:162-166 | The viewer closes only when the click's target is the overlay itself; the cursor never moves. |
| Lightbox.GalleryLightbox.Click | script.js:157-166 | For a click in the overlay: the background and close button close it, next and prev move the cursor without closing, and a click on the picture changes nothing visible. |
| Lightbox.GalleryLightbox.OnKeyDown | script.js:169-183 | With the viewer closed, a key changes nothing. While open, Escape closes it and keeps the cursor, the arrows act as next and prev, and any other key changes nothing. |
| Lightbox.InitGalleryLightbox | script.js:90-128 | No viewer is set up exactly when there are no gallery items or the overlay's markup is missing; otherwise the viewer starts closed on image 0. |
| Countdown.Split | script.js:391-394 | Hours are below 24 and minutes and seconds below 60. days·86400000 + hours·3600000 + minutes·60000 + seconds·1000 + diff mod 1000 equals diff. |
| Countdown.SplitUnique | script.js:391-394 | The split is the only decomposition with those bounds that adds back up to the difference. |
| Countdown.UpdateCountdown | script.js:382-389 | A difference of zero or less shows "0", "00", "00", "00". |
| Countdown.ZeroDisplayIff | script.js:382-399 | The display is all zeros exactly when less than one second is left. |
| Countdown.NonZeroDisplay | script.js:391-399 | From one second on, some field of the display is not zero. |
| Countdown.DisplayReadsBack | script.js:396-399 | For a positive difference, hours, minutes and seconds are two-digit strings. All four fields are decimal digits that read back as the split's numbers. |
| Countdown.TwoDigits | script.js:397-399 | `String(n).padStart(2, '0')`; specified by `JsText.PadStartTwoDigits` and `Countdown.DisplayReadsBack`. |
| Countdown.OneOfEachExample | script.js:391-399 | 90061001 ms shows "1", "01", "01", "01". |
| JsText.Trim | script.js:261-262 | The result is no longer than the input and does not start or end with whitespace. It is empty exactly when the input is all whitespace. |
| JsText.TrimIsInfix | script.js:261-262 | The trimmed string is a slice `s[i..j]` of the input with only whitespace outside it. With `Trim`'s own contract, it is the input with its leading and trailing whitespace removed. |
| JsText.TrimExample | script.js:262 | " a@b.co" followed by a line break trims to "a@b.co". |
| JsText.NatToString | script.js:396 | `String(n)` is a non-empty digit string with no leading zero. It has one digit exactly for n < 10 and two exactly for 10 ≤ n < 100. |
| JsText.DecimalValueOfNatToString | script.js:396 | `String(n)` reads back as n. |
| JsText.PadStart | script.js:397-399 | The result has length max(width, \|s\|), ends with s, and is preceded by fill characters. |
| JsText.PadStartTwoDigits | script.js:397-399 | For n < 100, `String(n).padStart(2, '0')` is two digits that read back as n. |
| Email.IsValidEmail | script.js:296-299 | `isValidEmail`; its meaning is stated by `Email.IsValidEmailIffShape` and `Email.IsValidEmailIffPattern`. |
| Email.IsValidEmailIffShape | script.js:296-299 | The check accepts exactly the strings with one '@' after a non-empty local part, a '.' in the domain that is neither its first nor its last character, and no whitespace. |
| Email.ShapeIffPattern | script.js:297 | That shape is exactly the language of the pattern read piece by piece. |
| Email.IsValidEmailIffPattern | script.js:296-299 | The check accepts exactly the strings the regular expression matches. |
| Email.AcceptedExample | script.js:296-299 | "a@b.co" is accepted. |
| Email.NoDotRejected | script.js:296-299 | "a@b" is refused. |
| Email.EmptyLocalRejected | script.js:296-299 | "@b.co" is refused. |
| Email.LeadingDotRejected | script.js:296-299 | "a@.co" is refused. |
| Email.InnerSpaceRejected | script.js:296-299 | "a b@c.d" is refused. |
| Email.TwoAtsRejected | script.js:296-299 | "a@b@c.d" is refused. |
| Rsvp.Blank | script.js:261-275 | `!value.trim()` holds exactly when every character of the value is whitespace. |
| Rsvp.NoAttendance | script.js:283 | `!attendance`: no radio checked, or one with an empty value; used by `Rsvp.ValidationErrors`. |
| Rsvp.Attending | script.js:288 | `attendance === 'yes'`; used by `Rsvp.ValidationErrors`, `Rsvp.SuccessText` and `Rsvp.RsvpForm.SetDetailsVisibility`. |
| Rsvp.CountChecked | script.js:264 | The checked count is at most the number of boxes and is zero exactly when no box is checked. |
| Rsvp.ValidationErrors | script.js:260-294 | Each of the five messages appears exactly when its own condition holds, whatever the other checks found. The two email messages never appear together. |
| Rsvp.ErrorsInCheckOrder | script.js:270-291 | The messages come in the order the checks run, so no message appears twice. |
| Rsvp.ValidateForm | script.js:260-294 | The step-by-step validation collects exactly `ValidationErrors`, and returns true exactly when it collected none. |
| Rsvp.EmptyFormThreeErrors | script.js:270-291 | An empty name, an empty email and no attendance give exactly those three errors, in that order. |
| Rsvp.YesWithoutEventsOneError | script.js:288-291 | A name, a valid email and "yes" with no events ticked give only the events error. |
| Rsvp.YesWithoutEventsExample | script.js:260-294 | ("Alice", "a@b.co", "yes", no events) gives only the events error. |
| Rsvp.PaddedEmailExample | script.js:262-281 | Whitespace around a valid address does not make the form invalid. |
| Rsvp.DecliningSkipsEvents | script.js:288 | Answering "no" never produces the events error. |
| Rsvp.SuccessText | script.js:241-244 | The success text is "We can't wait to celebrate with you!" exactly when attendance is "yes", and "Thank you for your response." otherwise. |
| Rsvp.RsvpForm.constructor | script.js:189-213 | The form as loaded, after the initial `setDetailsVisibility`: no errors, the button enabled, the panel hidden. |
| Rsvp.RsvpForm.SetDetailsVisibility | script.js:197-210 | "yes" shows the details and alters no field. Otherwise the details are hidden, every event box is unchecked, and dietary and message become '' where those fields exist. |
| Rsvp.RsvpForm.ChooseAttendance | script.js:212 | A change of the radio records the value and applies `setDetailsVisibility`. |
| Rsvp.RsvpForm.Submit | script.js:215-256 | The errors reported are exactly those of the values at submit time. The form is posted exactly when there are none, and what is posted is those values. An invalid form leaves the button and panel untouched. |
| Rsvp.RsvpForm.SendRequest | script.js:220-255 | If the request went through and the panel, its title and its text exist: title "Thank You!", the attendance-specific text, form hidden, panel shown. Otherwise the button label and enabled state are restored. The title is set only if the error came after it. |

## Left out

- Network and browser APIs: `fetch`, `FormData`/`URLSearchParams`
  serialisation, `alert`, `console`, `scrollIntoView` and
  `preventDefault`. They have no effect on the state modelled.
- The model treats the request as one step that is told its outcome. Events
  that arrive while `fetch` is awaited (script.js:229) are not modelled. On
  the page, the other listeners stay live meanwhile. A change of the
  attendance radio can run `setDetailsVisibility` (script.js:212) and clear
  the events, dietary and message fields. The lightbox and navigation also
  keep working. The success text is not affected: it reads the `FormData`
  taken before the await (script.js:226, 236). `SendRequest` uses the
  attendance as it stands, which is the same value when nothing intervenes.
- The DOM work in `showError` and `clearErrors` (script.js:301-325). The
  `errors` field is the list of `showError` calls of the last validation, and
  clearing empties that list. Whether a message is actually drawn depends on
  the page's markup, which is not modelled. When no element matches
  `#<field>` or `[name="<field>"]` (for instance "yes" on a page without
  event boxes), `showError` draws nothing (script.js:305). When the field has
  no `.form-group` ancestor, it throws at script.js:311.
- Smooth scrolling (script.js:66-85): floating-point geometry from the page
  layout.
- Parallax and `debounce` (script.js:409-436): a floating-point factor and
  timers.
- Scroll-triggered animations (script.js:331-359): `IntersectionObserver` and
  `setTimeout` callbacks.
- `initLazyLoading` (script.js:441-458): it is never called.
- The wedding date, `new Date()` and `setInterval` (script.js:366, 379-380,
  402-403). `UpdateCountdown` takes the difference as an integer number of
  milliseconds; a `Date` subtraction always gives a whole number.
- The countdown's missing-elements guard (script.js:373-376) and the RSVP's
  `if (!form) return` (script.js:193). The models assume the elements exist.
  For the lightbox, `markupPresent` stands for the whole check at
  script.js:104.
- The element lookups the script does not guard: `#name`, `#email`, the submit
  button, `#rsvp-details`, each gallery item's `img`, and `.main-nav`,
  `.nav-toggle` and `.nav-links` (script.js:20-22). The model assumes they
  exist; without them the script throws.
  - Without `.nav-toggle` or `.nav-links`, `initNavigation`, which runs
    first, throws at script.js:41 or 47. None of the later initializers
    (script.js:9-13) run.
  - Without `.main-nav`, the scroll and document click listeners throw each
    time they fire (script.js:32, 56).
- The unused `lastScroll` bookkeeping (script.js:25, 37).
- JavaScript strings are UTF-16 code-unit sequences. Here they are sequences
  of Unicode scalar values, which agree on every string without surrogate
  pairs.
- JsText.NatToString: gives plain digits for every n. JavaScript writes
  numbers from 10^21 on in exponent notation. The day count of any `Date`
  difference (at most about 2·10^8) is far below that.
- Navigation.Nav.OnScroll: the threshold uses real arithmetic; the
  floating-point rounding of `pageYOffset` is not modelled.
  "scrolled ⇔ offset > 100" holds only once the first scroll event has
  run. A page that loads already scrolled, through scroll restoration or a
  `#fragment` URL, keeps the initial unscrolled class until then.
- Lightbox.CollectImages: `img.src` is taken as the already resolved URL. An
  absent `alt` is the empty string, which is what `img.alt` returns, so
  `|| ''` changes nothing.
- Lightbox.GalleryLightbox.Click: the lightbox buttons' listeners are modelled
  for the state they change. The overlay's listener runs after them as the
  event bubbles; CSS that hides the buttons while the viewer is closed is not
  modelled.
- Rsvp.RsvpForm.SendRequest: a response with an HTTP error status counts as
  delivered, as it does in the script, since `fetch` only rejects on a network
  failure.
