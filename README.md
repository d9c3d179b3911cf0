# Car-rental web application: the rules under the request handlers

The application is a small Flask site for renting cars, with a forum and a
polling chat. This project models the rules its POST handlers and its chat
listing apply, with the database tables as sequences held by one object:

- `reserve` (module `Reservations`, method `App.Store.Reserve`): a 404 for an
  unknown car, then the two dates must parse, the end may not precede the
  start, and no stored booking of the same car may share a day with the new
  one (`existing.start <= end && existing.end >= start`, inclusive ranges);
  otherwise exactly one booking is appended. The table's invariant — every
  booking has `start <= end` and no two bookings of one car share a day — is
  proved to hold after any sequence of requests.
- `register` (module `Accounts`, method `App.Store.Register`): the e-mail is
  stripped and lower-cased, the name stripped; an empty e-mail, name or
  password is refused, and so is an e-mail already present; e-mails stay
  unique.
- `forum`, `forum_topic` (module `Forum`) and `chat_send` (module `Chat`):
  an empty title, post or message after stripping is refused and nothing is
  stored; a post needs an existing topic.
- `chat_messages` (module `Chat`): the newest fifty messages, oldest first;
  with a parsable `after`, only those later than it; otherwise unfiltered.
- `fmt_dt` (module `Format`): `YYYY-MM-DD HH:MM`, shown to determine the
  date and time to the minute.
- Python's `str.strip()` and `str.lower()` (module `Text`), which the
  e-mail, name, title, post and message checks go through.

Dates are whole day numbers and timestamps integers; a date or time that is
missing or does not parse is `None`. The signed-in user's id and the time the
database stamps on a new row are parameters. Each handler's outcome (the
message it flashes or the status it answers) is a datatype value. Every
state-changing method of `App.Store` is proved equal to a function of the old
tables (`Accounts.Register`, `Reservations.Reserve`, `Forum.CreateTopic`,
`Forum.AddPost`, `Chat.Send`), and the lemmas about those functions carry the
properties.

The code has no reservation status, no cancellation, no car deletion and no
reservation listing; the conflict query looks at every booking of the car;
and the car is looked up (404) before the dates are parsed.

## Model

| member | source | states |
|---|---|---|
| `Text.IsSpace` | app.py:38-39 | the characters `strip()` removes (as on lines 119, 135 and 174): U+0009 to U+000D, U+001C to U+001F, the space, U+0085, U+00A0, U+1680, U+2000 to U+200A, U+2028, U+2029, U+202F, U+205F and U+3000 |
| `Text.AsciiSpace` | app.py:38-39 | below U+0080 the whitespace `strip()` removes is exactly tab, line feed, vertical tab, form feed, carriage return, U+001C to U+001F and the space |
| `Text.SkipSpace` | app.py:38-39 | the forward half of `strip()`: the index it returns is the first character at or after the start that is not whitespace, and everything skipped is whitespace |
| `Text.SkipSpaceBack` | app.py:38-39 | the backward half of `strip()`: the end it returns is preceded by a non-whitespace character (or is the lower bound), and everything dropped is whitespace |
| `Text.Strip` | app.py:38-39 | `strip()` gives an empty string exactly when the input is all whitespace; otherwise neither end of the result is whitespace |
| `Text.StripCutsOnlySpace` | app.py:38-39 | `strip()` returns a contiguous slice of the input, and everything it cut off before and after that slice is whitespace |
| `Text.StripFixedPoint` | app.py:39 | stripping leaves a string unchanged exactly when neither end is whitespace |
| `Text.StripIdempotent` | app.py:39 | stripping twice is stripping once |
| `Text.LowerChar` | app.py:38 | `lower()` on one character: an upper-case ASCII letter becomes its lower-case letter, every other character stays, and no upper-case letter comes out |
| `Text.Lower` | app.py:38 | `lower()` keeps the length and lower-cases each character where it stands |
| `Text.LowerKeepsTrimmed` | app.py:38 | lower-casing a stripped string leaves it stripped |
| `Text.LowerIdempotent` | app.py:38 | lower-casing twice is lower-casing once |
| `Text.LowerSkipSpace` | app.py:38 | lower-casing does not move where the leading whitespace ends |
| `Text.LowerSkipSpaceBack` | app.py:38 | lower-casing does not move where the trailing whitespace begins |
| `Text.LowerStrip` | app.py:38 | lower-casing and stripping commute |
| `Text.SkipSpaceCons` | app.py:38-39 | a character put in front shifts the forward whitespace scan by one place |
| `Text.SkipSpaceBackCons` | app.py:38-39 | a character put in front shifts the backward whitespace scan by one place |
| `Text.StripLeadingSpace` | app.py:38-39 | a leading whitespace character does not change the stripped result |
| `Accounts.NormalizeEmail` | app.py:38 | the stored e-mail is empty exactly when the submitted one is all whitespace, is trimmed and has no upper-case ASCII letter |
| `Accounts.CanonicalIsFixedPoint` | app.py:38 | the e-mails `register` can store are exactly those normalisation leaves alone |
| `Accounts.NormalizeEmailIdempotent` | app.py:38 | normalising a stored e-mail again changes nothing |
| `Accounts.NormalizeEmailIgnoresCase` | app.py:38 | ASCII letter case in the submitted e-mail does not change the stored one |
| `Accounts.NormalizeEmailIgnoresLeadingSpace` | app.py:38 | leading whitespace in the submitted e-mail does not change the stored one |
| `Accounts.FindByEmail` | app.py:45 | the lookup finds nothing exactly when no user has the e-mail, and otherwise the first user who has it |
| `Accounts.Register` | app.py:38-51 | an empty e-mail, name or password gives MissingField; otherwise a known e-mail gives EmailTaken; in both cases the table is unchanged; otherwise one user with the next id, the normalised e-mail, the stripped name and the password's hash is appended |
| `Accounts.RegisterPreservesValid` | app.py:42-51 | registration keeps ids sequential, e-mails canonical and unique, names and passwords non-empty |
| `Accounts.RegisterTwiceIsTaken` | app.py:45-47 | after a registration, another with an e-mail that normalises alike is refused as taken |
| `Reservations.Clashes` | app.py:99-101 | the conflict filter: same car, stored start no later than the requested end, stored end no earlier than the requested start |
| `Reservations.ClashesIffSharedDay` | app.py:99-101 | for ranges with start before end, the filter holds exactly when the bookings are of the same car and share at least one day |
| `Reservations.FirstConflict` | app.py:98-103 | the conflict query finds nothing exactly when no booking of the car shares a day with the range, and otherwise the first one that does |
| `Reservations.Reserve` | app.py:85-110 | unknown car, unparsable date, end before start and an overlapping booking of the same car each give their own error in that order and leave the table unchanged; otherwise exactly the booking (user, car, start, end) is appended after the existing ones |
| `Reservations.ReservePreservesInvariant` | app.py:94-110 | one request keeps every booking's `start <= end`, its car existing, and the bookings of each car pairwise day-disjoint |
| `Reservations.Replay` | app.py:107-110 | a sequence of requests only appends: earlier bookings are never changed and at most one is added per request |
| `Reservations.ReplayPreservesInvariant` | app.py:94-110 | after any sequence of requests the table still satisfies the invariant |
| `Reservations.AtMostOneBookingPerDay` | app.py:98-105 | under the invariant, each day of each car is held by at most one booking |
| `Reservations.SharedBoundaryDayConflicts` | app.py:98-105 | a booking starting on the day another booking of the car ends is refused with Conflict |
| `Reservations.OtherCarsNeverConflict` | app.py:99 | the outcome depends only on the bookings of the requested car |
| `Reservations.RepeatConflicts` | app.py:98-110 | repeating a successful request immediately conflicts with the booking it made |
| `Reservations.BoundaryScenario` | app.py:98-105 | with days 1 to 5 booked, days 5 to 10 conflict and days 6 to 10 are accepted |
| `Forum.CreateTopic` | app.py:118-126 | a title that is all whitespace is refused and nothing stored; otherwise one topic with the next id and the stripped title is appended |
| `Forum.CreateTopicPreservesValid` | app.py:119-125 | stored titles stay non-empty and stripped, ids sequential |
| `Forum.AddPost` | app.py:133-141 | an unknown topic gives TopicNotFound, content that is all whitespace gives EmptyPost, both storing nothing; otherwise one post with the stripped content is appended to the topic |
| `Forum.AddPostPreservesValid` | app.py:135-139 | stored posts stay non-empty, stripped and attached to existing topics |
| `Chat.Send` | app.py:174-180 | content that is all whitespace is refused and nothing stored; otherwise one message with the next id, the stripped content and the current time is appended and its id and time are returned |
| `Chat.SendPreservesValid` | app.py:174-179 | stored messages stay non-empty and stripped, ids sequential |
| `Chat.Insert` | app.py:155 | inserting into a newest-first list keeps it newest first and adds exactly the one message |
| `Chat.SortNewestFirst` | app.py:155 | `order_by(created_at.desc())` returns the same messages, newest first |
| `Chat.Reverse` | app.py:156 | `reversed` returns the same messages back to front |
| `Chat.Newest` | app.py:155-156 | the window holds min(50, count) of the stored messages, oldest first, and every message left out is no newer than every message in it |
| `Chat.Since` | app.py:160 | the filter keeps exactly the messages later than `after`, each as often as before |
| `Chat.SinceKeepsOrder` | app.py:160 | the filter keeps an oldest-first list oldest first |
| `Chat.SinceBounds` | app.py:160 | the filter returns only later messages and never more than it was given |
| `Chat.Listing` | app.py:154-162 | at most fifty messages, oldest first; without a parsed `after` exactly the window, with one exactly the window's messages later than it |
| `Chat.ListingKeepsNewest` | app.py:155-160 | a message later than `after` that is not listed is no newer than any listed message |
| `Chat.FewMessagesAllShown` | app.py:155-156 | with at most fifty messages and no `after`, every message is listed |
| `Format.FmtDt` | app.py:183-185 | `fmt_dt` gives sixteen characters: four-digit year, two-digit month, day, hour and minute, with `-`, `-`, space and `:` between |
| `Format.ValueOfDigits` | app.py:185 | a zero-padded field reads back as the number it was made from |
| `Format.FmtDtRoundTrip` | app.py:185 | the formatted text reads back as the year, month, day, hour and minute |
| `Format.FmtDtSameMinute` | app.py:185 | two datetimes format alike exactly when they agree down to the minute |
| `Reservations.ForCar` | app.py:99 | the `car_id == car.id` filter keeps exactly the bookings of that car |
| `App.RegisterKeepsValid` | app.py:42-51 | registration keeps every table valid and every row's author a registered user |
| `App.ReserveKeepsValid` | app.py:94-110 | a reservation by a registered user keeps every table valid |
| `App.CreateTopicKeepsValid` | app.py:119-125 | a topic by a registered user keeps every table valid, posts still pointing at existing topics |
| `App.AddPostKeepsValid` | app.py:133-139 | a post by a registered user keeps every table valid |
| `App.SendKeepsValid` | app.py:174-179 | a chat message by a registered user keeps every table valid |
| `App.Store.Register` | app.py:36-53 | the user table afterwards and the outcome are those of `Accounts.Register`; the store stays valid |
| `App.Store.Reserve` | app.py:82-112 | the reservation table afterwards and the outcome are those of `Reservations.Reserve`; the store stays valid |
| `App.Store.CreateTopic` | app.py:115-126 | the topic table afterwards and the outcome are those of `Forum.CreateTopic`; the store stays valid |
| `App.Store.AddPost` | app.py:130-141 | the post table afterwards and the outcome are those of `Forum.AddPost`; the store stays valid |
| `App.Store.SendChat` | app.py:171-180 | the message table afterwards and the outcome are those of `Chat.Send`; the store stays valid |
| `App.Store.ChatMessages` | app.py:151-169 | returns the listing of the stored messages: at most fifty, oldest first, all stored; changes nothing |
| `App.ChatListingFromTable` | app.py:155-160 | every listed message is a stored message |

## Left out

- HTTP routing, templates, `flash`, redirects, `jsonify` and status codes: each handler's outcome is a datatype value instead.
- The GET side of `register`, `login`, `forum` and `forum_topic`, and the routes `index`, `cars`, `chat` and `logout`: they only render pages or list rows in the order the code's own `order_by` gives; none of these reads is modelled.
- `login`: it compares a password against its hash (a call into Werkzeug) and starts a session, neither of which is modelled.
- `load_user`: it only fetches a user by id for the session; sessions are not modelled.
- Sessions and `login_required`: the signed-in user's id is a parameter, and the store's methods require it to be a registered user's.
- Password hashing: a hash is the symbolic value `HashOf(password)`; salting and verification are not modelled.
- Date and time parsing (`date.fromisoformat`, `datetime.fromisoformat`): a parsed value is `Some(n)` with `n` a day number or a timestamp, anything else `None`; calendar arithmetic is not modelled.
- `chat_messages`: an `after` with a UTC offset compared against a stored naive time raises inside the same `try`, which leaves the list unfiltered; the model folds that case into `None` with the unparsable ones.
- `chat_messages`: the database does not fix the order of messages with equal `created_at`; the model fixes one. The JSON fields (author name, ISO time) are not modelled.
- `chat_send`: a JSON `content` that is not a string makes `.strip()` raise, and a JSON body that is truthy but not an object (`[1]`, `"hi"`) makes `.get` raise; both are server errors. The model takes `content` as a string, absent meaning empty.
- Text.LowerChar: lower-cases only `A` to `Z`; Python's `str.lower()` also lowers every other Unicode capital (`Ä` to `ä`), which this member leaves as it is.
- Text.Lower: lower-cases only the ASCII letters and always keeps the length, where Python's `str.lower()` covers all of Unicode and can lengthen a string (U+0130 becomes two characters). In consequence the model stores `Ä@x.pl` and `ä@x.pl` as two e-mails, where `register` stores both as `ä@x.pl` and refuses the second as already taken.
- Format.FmtDt: pads the year to four digits as Python's documentation describes; C libraries that print years below 1000 unpadded are not modelled, and a day is checked only against 31, not against its month.
- Row ids are the row's position plus one: no modelled handler deletes a row.
- The car table is a fixed set of ids: car details, prices and `seed` (directory creation, the admin account, the four cars) are not modelled.
- Two concurrent `reserve` requests can both pass the conflict check before either commits; requests are modelled one at a time.
