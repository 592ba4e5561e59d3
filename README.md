# Page behaviour of a therapy-practice brochure site, in Dafny

This project models the core of `js/main.js`, the script behind a static
brochure website. The DOM is reduced to flags, integers and sequences. Five
parts of the script are modelled:

- **The mobile menu** (`navigation.dfy`, module `Navigation`). The state is
  the 'active' class on the hamburger control and on the menu container,
  held as two flags. The listeners are the hamburger click, Enter or Space
  on the hamburger, a nav-link click, the document's click and keydown
  listeners, and the debounced resize listener. They are written as pure
  functions on a `Menu` value and as methods of a class `NavMenu` that
  update the two flags. `Step` gives the effect of one user action. Each
  action runs every listener it reaches: the target's own listener first,
  then the document's listener, to which the event bubbles.
- **Active-link highlighting** (`active_link.dfy`, module `ActiveLink`).
  `updateActiveNavLink` has three steps. A loop over the sections keeps the
  last one whose extent `[top, top + height)` holds the probe line
  `scrollY + navHeight + 100`. A second loop clears every link's 'active'
  flag. Then the first link whose href is `'#' + id` is marked, as
  `querySelector` would find it. The links are a class `NavLinks` over an
  `array<bool>`.
- **Smooth scrolling and the navigation bar** (`scrolling.dfy`, module
  `Scrolling`). The scroll target is `offsetTop - navHeight - 20`. The
  navigation bar takes its scrolled background when `scrollY > 50`.
- **The contact form** (`form_validation.dfy` and `contact_form.dfy`).
  `FormValidation` holds the object built from the form's entries and
  `validateForm`. The e-mail pattern `/^[^\s@]+@[^\s@]+\.[^\s@]+$/` is a
  predicate over `seq<char>`, and it is proved equal to a plain
  characterisation. `ContactForm.Form` is the form's child list and fields,
  with the submit listener, `showMessage` and the banner's later removal.
- **The floating label** (`field_focus.dfy`) and the listeners that span
  several parts (`page.dfy`): the per-frame scroll work, and the clicks on
  a nav link and on the call-to-action link.

A nav link or the call-to-action link whose target does not exist does not
fall through to the browser's own jump. Its scrolling listener calls
`preventDefault()` before looking up the target (js/main.js:47, 68), so no
scroll is requested (`SmoothScroll` returns `NoScroll`). A nav link's
closing listener (js/main.js:24-27) still runs.

## Model

| member | source | states |
|---|---|---|
| `FormValidation.IsSpace` | js/main.js:186 | `\s` as ECMAScript defines it: the WhiteSpace and LineTerminator code points U+0009 to U+000D, U+0020, U+00A0, U+1680, U+2000 to U+200A, U+2028, U+2029, U+202F, U+205F, U+3000 and U+FEFF. It is this exact set, not an abstract predicate. |
| `FormValidation.Plain` | js/main.js:186 | The class `[^\s@]`: any character that is neither in `IsSpace` nor '@'. |
| `FormValidation.PlainRun` | js/main.js:186 | `[^\s@]+` covering a whole string: the string is non-empty and every character is `Plain`. |
| `FormValidation.EmailRegexTest` | js/main.js:186-187 | The pattern as a predicate on the address: there are an '@' at i and a '.' at j > i such that the text before i, between i and j, and after j are each a non-empty run of characters that are neither whitespace nor '@'. |
| `FormValidation.RegexIffShape` | js/main.js:186-187 | The pattern matches an address exactly when it has no whitespace, exactly one '@', a non-empty part before the '@', and a domain with a '.' that is neither its first nor its last character. |
| `FormValidation.RegexImpliesShape` | js/main.js:186-187 | Every address the pattern matches has the plain shape. |
| `FormValidation.MatchHasShape` | js/main.js:186-187 | A match whose '@' and '.' sit at given positions has the plain shape: that '@' is the only one and the '.' is inside the domain. |
| `FormValidation.ShapeImpliesRegex` | js/main.js:186-187 | Every address of the plain shape is matched by the pattern. |
| `FormValidation.Filled` | js/main.js:181 | The truthiness of a form value: the key is present and its string is non-empty. A missing key reads as `undefined`, which is falsy. |
| `FormValidation.ValidateForm` | js/main.js:179-190 | The result is true exactly when name, email and message are all present and non-empty and the address has the plain shape. So a missing or empty required field gives false, whatever the other fields hold. |
| `FormValidation.IndexOf` | js/main.js:186-187 | Returns the index of the first occurrence, or the length when the character is absent. |
| `FormValidation.FormObject` | js/main.js:156-160 | The object the entries build when each one in turn assigns its value to its key, starting from the empty object. |
| `FormValidation.FormObjectKeys` | js/main.js:155-160 | The object built from the entries has exactly the entries' keys. |
| `FormValidation.FormObjectLastWins` | js/main.js:155-160 | For each key, the object holds the value of the last entry with that key. |
| `FormValidation.CollectFormData` | js/main.js:155-160 | The loop over the entries builds exactly that object. |
| `Navigation.ActivationKey` | js/main.js:288 | The hamburger's keydown listener clicks it exactly for the keys "Enter" and " ". |
| `Navigation.AfterHamburgerClick` | js/main.js:16-19 | The hamburger's click listener toggles both flags. |
| `Navigation.AfterNavLinkClick` | js/main.js:24-27 | A nav link's click listener clears both flags. |
| `Navigation.AfterDocumentClick` | js/main.js:31-39 | The document's click listener clears both flags when the click is neither inside the menu nor on the hamburger and the menu is open. Otherwise it changes nothing. |
| `Navigation.AfterDocumentKeyDown` | js/main.js:296-301 | The document's keydown listener clears both flags on Escape when the menu is open. Otherwise it changes nothing. |
| `Navigation.AfterResize` | js/main.js:345-351 | The debounced resize body clears both flags when the width is above 768 and the menu is open. Otherwise it changes nothing. |
| `Navigation.ClickOn` | js/main.js:16-39 | A click runs the target's own listener, if it has one, and then the document's click listener, with the target's place relative to the menu and the hamburger. |
| `Navigation.Step` | js/main.js:14-39 | One user action is a click, a key press or a resize. A key press on the hamburger runs its keydown listener, which clicks it for Enter or Space, and then the document's keydown listener. |
| `Navigation.HamburgerClickToggles` | js/main.js:16-19 | A hamburger click flips both flags, and the document listener it bubbles to does not interfere. Equal flags stay equal, and two clicks restore the state. |
| `Navigation.KeyActivationIsClick` | js/main.js:287-292 | Enter or Space on the hamburger has the same effect as a click on it. |
| `Navigation.NavLinkClickCloses` | js/main.js:24-27 | A nav-link click clears both flags whatever the state, and doing it twice is the same as doing it once. |
| `Navigation.OutsideClickCloses` | js/main.js:31-39 | A click outside the menu and the hamburger leaves the menu closed. It clears both flags when the menu was open and changes nothing otherwise. |
| `Navigation.InsideMenuClickIsNeutral` | js/main.js:31-39 | A click inside the menu that is not on a link changes nothing. |
| `Navigation.EscapeCloses` | js/main.js:296-301 | Escape, on the hamburger or elsewhere, leaves the menu closed. It clears both flags when the menu was open and changes nothing otherwise. |
| `Navigation.ResizeCloses` | js/main.js:345-351 | A resize above 768 leaves the menu closed and clears both flags only if it was open. A resize to 768 or less never changes anything. |
| `Navigation.StepKeepsSync` | js/main.js:14-39 | Every user action keeps the two flags equal. |
| `Navigation.RunKeepsSync` | js/main.js:14-39 | From equal flags, the flags are equal after any sequence of user actions, and so at every point along it. |
| `Navigation.NavMenu.OnHamburgerClick` | js/main.js:16-19 | Toggles both flags. |
| `Navigation.NavMenu.OnNavLinkClick` | js/main.js:24-27 | Clears both flags. |
| `Navigation.NavMenu.OnDocumentClick` | js/main.js:31-39 | Clears both flags only for an open menu and a click outside the menu and the hamburger. |
| `Navigation.NavMenu.OnDocumentKeyDown` | js/main.js:296-301 | Clears both flags only for Escape on an open menu. |
| `Navigation.NavMenu.OnResize` | js/main.js:345-351 | Clears both flags only for a width above 768 on an open menu. |
| `Navigation.NavMenu.Click` | js/main.js:16-39 | A dispatched click runs the target's listener, then the document's. |
| `Navigation.NavMenu.OnHamburgerKeyDown` | js/main.js:287-292 | Enter or Space clicks the hamburger. Any other key does nothing. |
| `Navigation.NavMenu.Dispatch` | js/main.js:14-39 | One user action changes the flags as `Step` says and keeps equal flags equal. |
| `ActiveLink.ScrollProbe` | js/main.js:92 | The probe line is `scrollY + navHeight + 100`. |
| `ActiveLink.Covers` | js/main.js:97-100 | A section covers the probe when `top <= probe < top + height`, a half-open extent. |
| `ActiveLink.Anchor` | js/main.js:101 | The anchor of a section is '#' followed by its id, or '#null' when the id attribute is absent. |
| `ActiveLink.SelectedAnchor` | js/main.js:94-103 | The value the candidate ends with: the empty string when no section covers the probe, else the anchor of the last section that does. |
| `ActiveLink.LastCovering` | js/main.js:96-103 | Returns the last section whose half-open extent holds the probe, or none when no section holds it. |
| `ActiveLink.SelectedAnchorEmptyIffUncovered` | js/main.js:94-111 | The selection is empty exactly when no section holds the probe. |
| `ActiveLink.UniqueCoveringSection` | js/main.js:92-103 | When extents do not overlap, the selected section is the one section that holds the probe. |
| `ActiveLink.ActiveSection` | js/main.js:90-103 | The loop that overwrites the candidate ends with '' or with `'#' + id` of the last section that holds the probe. A missing id reads as "null". |
| `ActiveLink.NavLinks.FindLink` | js/main.js:112 | Returns the first link, in document order, whose href equals the anchor, or none when there is no such link. |
| `ActiveLink.NavLinks.ClearActive` | js/main.js:105-108 | Every link loses its active flag. |
| `ActiveLink.NavLinks.UpdateActiveNavLink` | js/main.js:89-117 | Afterwards a link is active exactly when a section was selected and the link is the first one whose href is that section's anchor. So at most one link is active. |
| `Scrolling.ScrollTarget` | js/main.js:54 | The requested scroll offset is the target's offsetTop minus the navigation bar's height minus 20. |
| `Scrolling.SmoothScroll` | js/main.js:46-61 | A nav link's smooth-scroll listener requests no scroll when no element matches the href. Otherwise it requests a scroll to the first match's offset from `ScrollTarget`. |
| `Scrolling.NavbarBackground` | js/main.js:137-144 | The scrolled background when `scrollY > 50`, else warm white. |
| `Scrolling.FindTarget` | js/main.js:49-50 | Returns the first element whose `'#' + id` equals the href, or none when no element has it. |
| `Scrolling.SmoothScrollTarget` | js/main.js:46-61 | No scroll is requested exactly when the target is missing. Otherwise the requested scroll offset is `offsetTop - navHeight - 20`, which would put the first matching element 20 below the bottom of the navigation bar. |
| `Scrolling.NavbarBackgroundThreshold` | js/main.js:137-144 | At offset 50 the background is still warm white, and at 51 it is the scrolled one. Once the scrolled background appears, scrolling further down keeps it. The background is the scrolled one exactly when `scrollY > 50`. |
| `ContactForm.WithoutFirstBanner` | js/main.js:195-198 | The child list after the first banner, if there is one, is removed. Nothing changes when there is none. |
| `ContactForm.Detach` | js/main.js:224 | The child list after the node with the given identity is removed. Nothing changes when it is no longer attached. |
| `ContactForm.WithoutFirstBannerCount` | js/main.js:195-198 | Removing the first existing banner takes away one banner if there is one. |
| `ContactForm.WithoutFirstBannerKeepsOthers` | js/main.js:195-198 | Removing the first existing banner keeps every other child in order. |
| `ContactForm.WithoutFirstBannerAt` | js/main.js:195-198 | Removing the first banner is the same as cutting it out at its index. |
| `ContactForm.ShowMessageResult` | js/main.js:193-221 | After showMessage the new banner is the first child, and every other child keeps its order. From at most one banner the form goes to exactly one. In general it holds max(1, the old count). |
| `ContactForm.DetachBanners` | js/main.js:223-225 | The timed removal never adds a banner and leaves no node with the removed identity. |
| `ContactForm.StaleExpiryIsNoOp` | js/main.js:223-225 | The timer of a banner that a later showMessage already replaced finds the banner detached and changes nothing. |
| `ContactForm.Entries` | js/main.js:155 | Every entry carries a non-empty name, and there are no more entries than controls. |
| `ContactForm.EntriesConcat` | js/main.js:155 | The entries of two runs of controls are the first run's entries followed by the second's, so document order is kept. |
| `ContactForm.EntriesSingle` | js/main.js:155 | A named control yields exactly its (name, value) entry. An unnamed control yields none. |
| `ContactForm.EntriesMembers` | js/main.js:155 | Every named control's (name, value) is an entry, and every entry is the name and value of some control. |
| `ContactForm.ResetFields` | js/main.js:168 | Every control goes back to its default value and keeps its name. |
| `ContactForm.ExampleAddressMatches` | js/main.js:186-187 | The pattern matches "ann@example.com". |
| `ContactForm.ExampleAccepted` | js/main.js:179-190 | {name: "Ann", email: "ann@example.com", message: "Hi"} is accepted. |
| `ContactForm.ExampleEmptyName` | js/main.js:181-183 | The same submission with an empty name is rejected. |
| `ContactForm.ExampleMalformedAddress` | js/main.js:186-187 | The same submission with the address "not-an-email" is rejected. |
| `ContactForm.Form.constructor` | js/main.js:149-150 | A form starts with its fields, `elementCount` other children numbered 0 to `elementCount - 1`, no banner, the next identity `elementCount`, and no banner shown yet. |
| `ContactForm.Form.FindFirstBanner` | js/main.js:195 | Returns the index of the first banner among the children, or none when there is no banner. |
| `ContactForm.Form.ShowMessage` | js/main.js:193-226 | The new banner carries a fresh identity, the given type and the given text. The children become that banner followed by the old children without their first banner. The fields are unchanged, and the next identity advances by one. The form keeps at most one banner, as part of its invariant. |
| `ContactForm.Form.Expire` | js/main.js:223-225 | Applies only to the identity of a banner that showMessage created. That node is removed if it is still attached; otherwise nothing changes. The banner count never grows, so the form keeps at most one banner. |
| `ContactForm.Form.Submit` | js/main.js:151-176 | The outcome is `validateForm` of the object built from the named controls. On success the form shows the success banner and the fields are reset. On failure it shows the error banner and the fields are left alone. Either way the next identity advances by one, and the form keeps at most one banner, however many submissions follow. |
| `FieldFocus.AfterLoad` | js/main.js:276-279 | On load a control with a value marks its wrapper, and an empty one leaves the mark as it was. |
| `FieldFocus.AfterFocus` | js/main.js:266-268 | Focus marks the wrapper. |
| `FieldFocus.AfterBlur` | js/main.js:270-274 | Blur removes the mark only when the control is empty. |
| `FieldFocus.FocusFlag` | js/main.js:264-280 | A pre-filled control marks its wrapper on load, and an empty one does not. After focus and blur the wrapper stays marked exactly when the control holds a value. |
| `PageBehaviour.Page.OnScrollFrame` | js/main.js:123-127 | One frame updates the active link and sets the background for the same offset. |
| `PageBehaviour.Page.OnNavLinkClick` | js/main.js:23-62 | A nav-link click closes the menu and asks for the smooth scroll to the link's href. |
| `PageBehaviour.Page.OnCtaClick` | js/main.js:64-83 | A click on the call-to-action link asks for the smooth scroll to its href. The link is taken to lie outside the menu and the hamburger, so the document listener also closes an open menu. |

## Left out

- Real DOM and browser APIs (`querySelector`, `classList`, `contains`, `scrollTo`, `style.cssText`) exist only through the abstract state above. Colours and the CSS text of the banner are not modelled; only its type tag is.
- The `requestAnimationFrame` throttle flag (js/main.js:120-130) and the 250 ms `debounce` timer (js/main.js:330-342) are not modelled, because they depend on timing. The model runs the frame callback and the debounced resize body directly.
- The 5-second `setTimeout` removal of a banner (js/main.js:223-225) is not scheduled. It is the explicit step `Form.Expire`, which may be applied at any time.
- The IntersectionObserver reveal animation (js/main.js:232-256) is not modelled: it is driven by the browser and uses fractional thresholds and CSS strings.
- `preloadImages` over an empty list (js/main.js:307-324), console logging, and the commented-out service-worker block are not modelled.
- Offsets, heights, widths and `scrollY` are integers; fractional values are not modelled.
- A missing hamburger, menu, navigation bar or form is not modelled: every element is taken to exist. With the hamburger or the menu missing, the source skips the toggle listener and its optional chaining makes the other listeners no-ops on the missing element.
- A click that lands on the hamburger while it lies inside the menu is not modelled: the hamburger and the menu are taken to be disjoint.
- PageBehaviour.Page.OnCtaClick: the call-to-action link is taken to lie outside both the menu and the hamburger. Where it sits is a fact about the page's markup, which is not part of this model.
- Scrolling.SmoothScrollTarget: states the requested offset only. `window.scrollTo` clamps that request to the page's scrollable range, so a target nearer the top than `navHeight + 20` ends up under the navigation bar, and one near the bottom ends up lower. The clamping is not modelled.
- An href that is not a valid CSS selector (a bare '#', an id starting with a digit, or one holding a quote) makes `querySelector` throw in the source. The model treats every lookup as a plain comparison of `'#' + id` with the href. That comparison also differs from the selector for hrefs that are valid selectors but hold '.', ':', '[' or a backslash escape: `'#a.b'` selects an element with id "a" and class "b", where the model looks for the id "a.b", and a backslash escape selects an id other than the literal text.
- `document.querySelector('.form-message')` searches the whole document. The model searches the form's children only, so banners are taken to live nowhere else.
- FormData's treatment of disabled controls, unchecked boxes, buttons and file inputs is not modelled. Each named control contributes its name and its text value. A key such as `__proto__`, which a plain JavaScript object treats specially, is treated as an ordinary key.
- `ContactForm.Form.Submit` does not model the console output of the collected data or the suppressed page navigation.
