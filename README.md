# Portfolio site: contact form, timeline lines and head-tag helpers

This project models the three pieces of the portfolio site that have real
logic, and proves properties of each.

- **The contact section controller.** Its state is whether the chat form is
  shown, whether a send is in flight, the banner message, the six-field form
  record and the field-error map. The section has two validators. A mobile
  number must hold exactly ten ASCII digits once non-digits are stripped. An
  email address must match `^[^\s@]+@[^\s@]+\.[^\s@]+$`. `validateForm`
  builds the error map; for the mobile number and the email a "required"
  message takes precedence over the format message. The event handlers are
  field edit, submit, the outcome of the send, the delayed auto-close, the
  close button and the open/close toggle. These are the modules
  `ContactValidation` and `ContactForm`, and `ContactForm.ContactForm` is a
  class whose methods update those fields.
- **The timeline line splitter.** Each content string is split on `" - "`.
  The first piece is shown in bold, then the separator, then the remaining
  pieces joined again with `" - "`. A string without the separator is shown
  verbatim. Items alternate sides by the parity of their index, and the entry
  animation starts at -100 or +100. This is the module `Timeline`.
- **The head-tag helpers.** `upsertMeta`, `setMetaName`, `setMetaProperty`,
  `setCanonical`, `setRobots` and `setJsonLd` each find the first matching
  element of the document head, or create one and append it. Then they write
  one attribute, or the text, of that element. The head is a class `Seo.Head`
  holding the sequence of its children. Each method is proved equal to a
  find-or-create function, `Seo.Upsert`. The laws are proved about that
  function: no duplicate creation, the selector finds the written element
  afterwards, last write wins, and everything else is unchanged.

`JsStrings` holds the JavaScript string operations these rely on:

- `trim` with the ECMAScript WhiteSpace and LineTerminator characters, which
  are also the characters `\s` matches;
- `indexOf`;
- `split` and `join` on a non-empty separator.

`ContactExamples` checks worked examples and three end-to-end exchanges.

## Model

| member | source | states |
|---|---|---|
| JsStrings.Trim | src/components/portfolio/Contact.tsx:42-52 | no contract of its own: `trim()` drops leading and trailing white space; its properties are the ensures of `JsStrings.TrimSpec` |
| JsStrings.TrimSpec | src/components/portfolio/Contact.tsx:42-52 | `trim()` never lengthens a string; a non-empty result neither starts nor ends with white space; the result is empty exactly when the whole string is white space |
| JsStrings.IndexOf | src/components/portfolio/Timeline.tsx:110 | no contract of its own: the first position where the separator occurs, if any; its properties are the ensures of `JsStrings.IndexOfSpec` |
| JsStrings.IndexOfSpec | src/components/portfolio/Timeline.tsx:110 | `indexOf` finds nothing exactly when the separator does not occur, and otherwise returns an occurrence with none before it |
| JsStrings.Split | src/components/portfolio/Timeline.tsx:110 | `split` gives at least one piece, exactly one when the separator does not occur, and no piece contains the separator |
| JsStrings.SplitAtFirst | src/components/portfolio/Timeline.tsx:110 | for any position where the separator occurs with no occurrence before it, `split` gives the piece before that position followed by the split of what follows the separator |
| JsStrings.Join | src/components/portfolio/Timeline.tsx:115 | no contract of its own: `rest.join(" - ")` glues the pieces with the separator between them; `JsStrings.JoinSplit` states that it undoes `split` |
| JsStrings.JoinSplit | src/components/portfolio/Timeline.tsx:110-115 | joining the pieces of a split with the same separator gives back the original string |
| ContactValidation.FormData.Set | src/components/portfolio/Contact.tsx:64-67 | `{...prev, [name]: value}` gives the named input the new value and leaves the other five unchanged |
| ContactValidation.SetIdempotent | src/components/portfolio/Contact.tsx:64-67 | storing the same value twice is the same as storing it once |
| ContactValidation.ErrorText.Text | src/components/portfolio/Contact.tsx:43-55 | the five validation messages are non-empty, so only the cleared entry is falsy |
| ContactValidation.DigitsOnly | src/components/portfolio/Contact.tsx:35 | the stripped string is never longer than the input; which characters it keeps is stated by `ContactValidation.DigitsOnlySpec` |
| ContactValidation.DigitsOnlySpec | src/components/portfolio/Contact.tsx:35 | `replace(/\D/g, '')` leaves only digits, one for each digit position of the input |
| ContactValidation.ValidateMobileNumber | src/components/portfolio/Contact.tsx:33-37 | no contract of its own: the length of the stripped string is 10; its meaning is the ensures of `ContactValidation.ValidateMobileNumberSpec` |
| ContactValidation.ValidateMobileNumberSpec | src/components/portfolio/Contact.tsx:33-37 | a mobile number is valid exactly when it has ten digit positions, whatever else it holds |
| ContactValidation.ValidateEmail | src/components/portfolio/Contact.tsx:28-31 | no contract of its own: the check at the first '@'; that it accepts exactly the pattern's strings is the ensures of `ContactValidation.ValidateEmailMatchesPattern` |
| ContactValidation.ValidateEmailMatchesPattern | src/components/portfolio/Contact.tsx:28-31 | the email check accepts exactly the strings of `^[^\s@]+@[^\s@]+\.[^\s@]+$`: a non-empty local part, '@', a host, '.', a suffix, with no white space or second '@' |
| ContactValidation.AcceptedHasShape | src/components/portfolio/Contact.tsx:28-31 | an address the check accepts has the shape of the pattern |
| ContactValidation.ShapeAtFirstAt | src/components/portfolio/Contact.tsx:28-31 | in any match of the pattern, the '@' is the first '@' of the string |
| ContactValidation.ShapeAccepted | src/components/portfolio/Contact.tsx:28-31 | a match of the pattern passes the check |
| ContactValidation.BlankMobileInvalid | src/components/portfolio/Contact.tsx:46-50 | a blank mobile number never passes the digit check, so the "required" branch covers every blank value |
| ContactValidation.BlankEmailInvalid | src/components/portfolio/Contact.tsx:52-56 | a blank email never passes the pattern, so the "required" branch covers every blank value |
| ContactValidation.ComputeErrors | src/components/portfolio/Contact.tsx:40-57 | the map built field by field has keys only among name, mobile number and email; each key is present exactly when its check fails; "required" is chosen for a blank value and the format message otherwise; the map is empty exactly when the record is acceptable |
| ContactValidation.ErrorMapUnique | src/components/portfolio/Contact.tsx:40-57 | the outcomes of the three checks determine the error map completely |
| ContactValidation.ReportsErrorsUnique | src/components/portfolio/Contact.tsx:40-57 | a record has only one error map |
| ContactForm.SubmitMessage.Text | src/components/portfolio/Contact.tsx:103-127 | the banner text, the thank-you note for type `success` and the retry note for type `error`, is never empty |
| ContactForm.ClearError | src/components/portfolio/Contact.tsx:69-74 | an edit blanks the field's entry only when it was truthy, adds no key and changes no other entry |
| ContactForm.ClearErrorWellFormed | src/components/portfolio/Contact.tsx:69-74 | clearing keeps the error map holding only required fields and their own messages |
| ContactForm.ErrorMapWellFormed | src/components/portfolio/Contact.tsx:40-57 | a map built from the check outcomes holds only required fields and their own messages |
| ContactForm.ReportedErrorsWellFormed | src/components/portfolio/Contact.tsx:40-58 | the error map `validateForm` stores is well formed |
| ContactForm.ContactForm.constructor | src/components/portfolio/Contact.tsx:11-22 | initial state: form hidden, not submitting, no banner, all six inputs empty, no errors |
| ContactForm.ContactForm.ValidateForm | src/components/portfolio/Contact.tsx:39-60 | stores the error map the record earns, changes nothing else, and returns true exactly when that map is empty, that is when the record is acceptable |
| ContactForm.ContactForm.HandleInputChange | src/components/portfolio/Contact.tsx:62-75 | the named input takes the value, the others are unchanged, and the error map is cleared for that field only |
| ContactForm.ContactForm.HandleSubmit | src/components/portfolio/Contact.tsx:77-100 | a refused record sends nothing and leaves the record, the banner and the submitting flag as they were; an acceptable one marks the form as submitting, clears the banner and hands over the record exactly as entered with the timestamp |
| ContactForm.ContactForm.TransportSettles | src/components/portfolio/Contact.tsx:102-130 | a returning send shows the thank-you banner, empties all six inputs and schedules one auto-close; a throw shows the retry banner and keeps the record; either way the form stops submitting and the errors and visibility are unchanged |
| ContactForm.ContactForm.CloseTimerFires | src/components/portfolio/Contact.tsx:119-122 | the auto-close hides the form and clears the banner |
| ContactForm.ContactForm.CloseChatForm | src/components/portfolio/Contact.tsx:133-137 | closing hides the form, clears the banner and all errors, and keeps the entered values |
| ContactForm.ContactForm.ToggleChatForm | src/components/portfolio/Contact.tsx:262 | the toggle flips the form's visibility |
| ContactForm.OpenAndFill | src/components/portfolio/Contact.tsx:62-75 | opening a fresh form and typing six values leaves exactly that record, with no errors, no banner and nothing in flight |
| ContactForm.FillAndSubmit | src/components/portfolio/Contact.tsx:62-137 | a whole exchange: only an acceptable record is sent, exactly as typed; a completed send empties and closes the form with the thank-you banner; a throw keeps the record open with the retry banner; a refusal shows the field errors and no banner |
| ContactExamples.DigitsOnlyConcat | src/components/portfolio/Contact.tsx:35 | stripping non-digits distributes over concatenation |
| ContactExamples.DigitsOnlyOfDigits | src/components/portfolio/Contact.tsx:35 | a string of digits is left unchanged |
| ContactExamples.PlainMobileExamples | src/components/portfolio/Contact.tsx:33-37 | "9876543210" is valid; "12345" and "123" are not |
| ContactExamples.SeparatedMobileExample | src/components/portfolio/Contact.tsx:33-37 | "98-76-543-210" is valid: the dashes are ignored |
| ContactExamples.ShortEmailExample | src/components/portfolio/Contact.tsx:28-31 | "a@b.com" is a valid address |
| ContactExamples.JaneEmailExample | src/components/portfolio/Contact.tsx:28-31 | "jane@x.com" is a valid address |
| ContactExamples.BadEmailExamples | src/components/portfolio/Contact.tsx:28-31 | "a@b" (no dot in the domain) and "bad" (no '@') are rejected |
| ContactExamples.JaneIsAcceptable | src/components/portfolio/Contact.tsx:39-59 | a record with a name, ten digits and a valid address passes validation |
| ContactExamples.RefusedChecks | src/components/portfolio/Contact.tsx:42-56 | for a blank name, "123" and "bad", the name is blank and the other two are present but malformed |
| ContactExamples.RefusedErrors | src/components/portfolio/Contact.tsx:42-56 | that record earns "Name is required" and the two format messages, and nothing else |
| ContactExamples.SentScenario | src/components/portfolio/Contact.tsx:77-122 | the good record is sent as typed; the form then empties, thanks the user and closes |
| ContactExamples.RefusedScenario | src/components/portfolio/Contact.tsx:80-82 | the refused record sends nothing and shows its three errors |
| ContactExamples.ThrownScenario | src/components/portfolio/Contact.tsx:123-130 | when the send throws, the retry banner shows, the record stays and the form stays open |
| Timeline.Shown | src/components/portfolio/Timeline.tsx:113-118 | a rendered bold lead is always followed by the visible separator, which starts right where the lead ends |
| Timeline.RenderLine | src/components/portfolio/Timeline.tsx:110-118 | a line is verbatim exactly when it has no `" - "`; otherwise the lead holds no separator and ends where the first separator starts; either way the rendered pieces concatenate back to the line |
| Timeline.RenderContent | src/components/portfolio/Timeline.tsx:109-119 | one rendered line per content string, each showing exactly that string, with a bold lead exactly when the string contains the separator |
| Timeline.ItemLayout | src/components/portfolio/Timeline.tsx:80-105 | `isLeft` holds exactly for even indices; left items use the row layout and right-aligned text, right items the reversed row and left-aligned text; the entry offset is ±100 and negative exactly for left items |
| Timeline.LayoutAlternates | src/components/portfolio/Timeline.tsx:98 | neighbouring items sit on opposite sides and enter from opposite offsets; every second item has the same layout |
| Timeline.VerbatimExample | src/components/portfolio/Timeline.tsx:113-118 | "Python" is shown verbatim |
| Timeline.RenderAtFirstSeparator | src/components/portfolio/Timeline.tsx:110-115 | a line is cut at its first separator: the lead is everything before it and the rest everything after it |
| Timeline.LeadAndRestExample | src/components/portfolio/Timeline.tsx:110-115 | "Lead - a - b" renders as the bold "Lead" then "a - b"; later separators stay in the rest |
| Seo.QuerySelector | src/lib/seo.ts:2 | the lookup finds nothing exactly when no child matches, and otherwise the first matching child |
| Seo.FirstMatchIs | src/lib/seo.ts:2 | a matching child with no match before it is what the lookup returns |
| Seo.CountMatches | src/lib/seo.ts:2 | the number of matching children is zero exactly when the lookup finds nothing |
| Seo.Apply | src/lib/seo.ts:8 | after `setAttribute` or a `textContent` assignment the element carries the written value, keeps its tag and every attribute not written |
| Seo.ApplyOverrides | src/lib/seo.ts:8 | a second write to the same attribute, or to the text, erases the first |
| Seo.Upsert | src/lib/seo.ts:1-9 | find or create: nothing is appended exactly when the selector finds a child, and otherwise exactly one element is appended |
| Seo.UpsertExisting | src/lib/seo.ts:2-8 | with a match present nothing is appended; the first match becomes itself with the write applied, so it carries the written value, keeps its tag and every attribute not written; every other child is unchanged |
| Seo.UpsertMissing | src/lib/seo.ts:3-8 | with no match, exactly one element is appended after the unchanged children, the created one with the write |
| Seo.UpsertThenFind | src/lib/seo.ts:2-8 | afterwards the same selector finds the written element, at the old first match or at the end |
| Seo.UpsertNoDuplicate | src/lib/seo.ts:2-8 | the number of matching elements stays as it was, or becomes one when there were none |
| Seo.UpsertTwice | src/lib/seo.ts:1-13 | two upserts on one selector, the second write overriding the first, equal the second upsert alone |
| Seo.WithEntries | src/lib/seo.ts:5 | no contract of its own: the attribute entries written one after the other; its properties are the ensures of `Seo.WithEntriesLastWins` and `Seo.WithEntriesKeepsOthers` |
| Seo.WithEntriesLastWins | src/lib/seo.ts:5 | after the entries are written each key holds the value of its last entry |
| Seo.WithEntriesKeepsOthers | src/lib/seo.ts:5 | a key no entry names keeps its value, or stays absent |
| Seo.SetAttributes | src/lib/seo.ts:5 | the `forEach` over the attribute entries writes them one after the other |
| Seo.AfterUpsertMeta | src/lib/seo.ts:1-9 | no contract of its own: `upsertMeta` as the find-or-create of a meta built from the attributes, with the content written; its laws are those of `Seo.Upsert` (`Seo.UpsertExisting` to `Seo.UpsertTwice`) |
| Seo.AfterSetMetaName | src/lib/seo.ts:11-13 | no contract of its own: `upsertMeta` on `meta[name="…"]`; its laws are the ensures of `Seo.SetMetaNameLaws` |
| Seo.AfterSetMetaProperty | src/lib/seo.ts:15-17 | no contract of its own: `upsertMeta` on `meta[property="…"]`; its laws are the ensures of `Seo.SetMetaPropertyLaws` |
| Seo.AfterSetCanonical | src/lib/seo.ts:19-27 | no contract of its own: find or create the canonical link, then write its `href`; its laws are the ensures of `Seo.SetCanonicalLaws` |
| Seo.AfterSetJsonLd | src/lib/seo.ts:33-42 | no contract of its own: find or create the script for the id, then write its text; its laws are the ensures of `Seo.SetJsonLdLaws` and `Seo.SetJsonLdCreates` |
| Seo.MetaNameCreatedMatches | src/lib/seo.ts:11-13 | a meta created by `setMetaName` carries `name` and is found by its selector |
| Seo.MetaPropertyCreatedMatches | src/lib/seo.ts:15-17 | a meta created by `setMetaProperty` carries `property` and is found by its selector |
| Seo.SetMetaNameLaws | src/lib/seo.ts:11-13 | `setMetaName` creates no duplicate; afterwards the selector finds a meta with that name and the content; of two calls the second wins and adds nothing |
| Seo.SetMetaPropertyLaws | src/lib/seo.ts:15-17 | `setMetaProperty` creates no duplicate; afterwards the selector finds a meta with that property and the content; of two calls the second wins and adds nothing |
| Seo.SetCanonicalLaws | src/lib/seo.ts:19-27 | `setCanonical` creates at most one canonical link; afterwards it carries the href; the last call wins |
| Seo.SetJsonLdLaws | src/lib/seo.ts:33-42 | `setJsonLd` creates at most one script per id; afterwards its text is the serialised payload; the last call wins |
| Seo.SetJsonLdCreates | src/lib/seo.ts:35-40 | a script created by `setJsonLd` is appended once, typed `application/ld+json` and tagged with the id |
| Seo.Head.UpsertMeta | src/lib/seo.ts:1-9 | the head becomes the find-or-create of a meta with the given attributes and content |
| Seo.Head.SetMetaName | src/lib/seo.ts:11-13 | the head becomes the upsert of `meta[name]` with that content |
| Seo.Head.SetMetaProperty | src/lib/seo.ts:15-17 | the head becomes the upsert of `meta[property]` with that content |
| Seo.Head.SetCanonical | src/lib/seo.ts:19-27 | the head becomes the upsert of `link[rel="canonical"]` with that href |
| Seo.Head.SetRobots | src/lib/seo.ts:29-31 | the effect is exactly that of `setMetaName("robots", content)` |
| Seo.Head.SetJsonLd | src/lib/seo.ts:33-42 | the head becomes the upsert of the script for the id with the serialised payload as its text |

## Left out

- The GSAP and ScrollTrigger animations and `prefersReducedMotion` have no stateable logic. Only the starting x offset of the timeline's entry animation is modelled.
- The network call is not modelled. `fetch` with `no-cors` is reduced to its outcome: it returns or it throws (`threw`). The response is never read, so any return counts as success.
- `new Date().toISOString()` is an opaque `timestamp` parameter. `JSON.stringify(dataToSubmit)` is represented by the `Submission` value itself.
- In `setJsonLd`, `JSON.stringify(payload)` is the opaque string parameter `serialized`.
- The three-second `setTimeout` delay is not modelled. Each scheduled auto-close is an explicit event, `CloseTimerFires`, counted by `pendingCloses`. Unmounting is not modelled either.
- React's batched, asynchronous state updates are not modelled. The handlers run as sequential updates of the class's fields.
- `handleInputChange` reads `errors` from the last render; the model reads the current field.
- Only the submit handler's own validation is modelled. The form has no `noValidate` (src/components/portfolio/Contact.tsx:290) and the email input has `type="email"` (src/components/portfolio/Contact.tsx:319), so the browser's own constraint validation can refuse an address such as "bad" before `handleSubmit` runs. `ContactExamples.RefusedScenario` describes what the handler does with such a record.
- `ContactForm.ContactForm.HandleSubmit` requires that no send is in flight. The button is disabled while submitting (src/components/portfolio/Contact.tsx:420), so no second submit reaches the handler then.
- Form fields are the six named inputs (`Field`). An input event can name only one of them.
- `Seo.QuerySelector` does not parse CSS. The helpers interpolate the name or id into the selector unescaped; the model treats the lookup as tag plus attribute equality. Only the head's direct children are searched, not nested descendants.
- The selector laws (`Seo.SetMetaNameLaws`, `Seo.SetMetaPropertyLaws`, `Seo.SetJsonLdLaws`) hold only for names and ids that need no escaping inside a quoted CSS attribute value. A `"` in the name makes `querySelector` throw; a backslash makes the selector look for a different value, so each call appends a duplicate. HTML attribute names are case-insensitive, which the model does not capture either. The names the 404 page passes (`description`, `twitter:title`, `og:title`, `robots`; src/pages/NotFound.tsx:16-22) need no escaping.
- Element identity is not modelled: an element is a value, addressed by its position among the head's children. Attributes written through another reference to the same element are outside the model.
- A record's attribute entries are a sequence of key and value pairs, taken in `Object.entries` order.
- Strings are sequences of characters. JavaScript's UTF-16 code units and surrogate pairs are not distinguished.
- The unused `mobileRegex` (src/components/portfolio/Contact.tsx:34) is not modelled.
