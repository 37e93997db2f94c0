# sssb-notification, modelled in Dafny

sssb-notification watches the listing page of SSSB, the Stockholm student
housing foundation. It reads the page, turns each listing block into a
`Listing` record, and compares the result with the snapshot saved by the
previous run. It mails one notification for every new listing that is a
one-room flat of more than 25 square metres and not a corridor room, and it
then saves the union of the old and new listings as the next snapshot. If
anything raises, it mails a fixed error subject instead.

This project models the pure core of that cycle and proves its properties:

- `results.dfy` (module `Results`) holds `Option` and a `Result` whose
  `:-` operator plays the part of a Python exception. It also holds
  `MapAll`, a list comprehension in which any raise aborts the whole list.
- `text.dfy` (module `Text`) holds the Python string operations the source
  uses:
  - `strip` over CPython's whitespace set, which includes U+00A0;
  - `lower` over ASCII and Latin-1;
  - `in` on strings;
  - single-pass `replace`;
  - `split` on a single character.
- `sssb.dfy` (module `Sssb`) models `Listing`, `extract_int`,
  `parse_raw_listing` and `current_listings`. A listing block is given as the
  texts that the page lookups would return. `None` stands for a lookup that
  found no element, where the source raises `AttributeError`.
- `notify.dfy` (module `Notify`) models:
  - `is_relevant`;
  - the set algebra of `main`;
  - the `asdict` / `Listing(**d)` snapshot round trip, over JSON values;
  - the notification subject;
  - one whole run as a function of the page and the stored snapshot.

Some points about the code are easy to misread:

- `str.isdigit` also accepts the Latin-1 superscripts ¹ ² ³, and `int` then
  raises `ValueError`. So `extract_int("25 m²")` and `extract_int("²")` raise.
  They do not return 25 and 0.
  - `ExtractInt` returns a `Result`.
  - `Sssb.ExtractIntSuperscriptExample` shows the raise on `"25 m²"`.
  - `Sssb.AreaArtifactExample` shows that the mis-encoded `"25 mÂ²"` reads
    as 25.
- `int` also raises `ValueError` on a decimal string of more than 4300
  digits, CPython's default limit since 3.11, 3.10.7 and 3.9.14. With the
  leading "0", `extract_int` therefore raises on a text with 4300 or more
  digits.
- The source has only the strict relevance rule. No looser variant exists in
  it to model.

## Model

| member | source | states |
|---|---|---|
| Sssb.Listing | sssb.py:32-42 | a listing is its nine fields, texts and integers; as with the frozen dataclass, two listings are equal exactly when every field is |
| Sssb.RawListing | sssb.py:55-83 | a listing block is the eight texts the lookups return, each absent where the lookup finds no element |
| Results.MapAll | sssb.py:102-103 | the comprehension succeeds exactly when every element maps without error, and then keeps the length and maps each element to its result |
| Results.MapAllFirstError | sssb.py:102-103 | a failed comprehension raises the error of the first failing element; every element before it maps |
| Text.IsSpace | sssb.py:59-83 | the whitespace set of every `strip`: the characters `str.isspace` accepts, U+00A0 among them |
| Text.Strip | sssb.py:59 | the result neither starts nor ends with whitespace |
| Text.TrimStart | sssb.py:59 | the left strip is no longer than the text and does not start with whitespace |
| Text.TrimEnd | sssb.py:59 | the right strip is no longer than the text and does not end with whitespace |
| Text.StripSlice | sssb.py:63-64 | the result is a slice of the input, and only whitespace was cut off on either side |
| Text.StripStripped | sssb.py:63-64 | a text with no whitespace at either end is left unchanged |
| Text.StripIdempotent | sssb.py:63-64 | stripping twice is stripping once |
| Text.StripKeepsNonSpace | sssb.py:59 | stripping adds no character and keeps every non-whitespace character |
| Text.TrimStartSpec | sssb.py:59 | the left strip keeps a suffix that does not start with whitespace and removes only whitespace |
| Text.TrimEndSpec | sssb.py:59 | the right strip keeps a prefix that does not end with whitespace and removes only whitespace |
| Text.Lower | notify.py:23 | lower-casing keeps the length, leaves no upper-case letter, keeps every other character, and moves each upper-case letter to its lower-case partner |
| Text.LowerIdempotent | notify.py:27 | lower-casing a lower-cased text changes nothing |
| Text.SubstringIsSlice | notify.py:23 | `sub in s` holds exactly when `sub` starts at some position of `s` |
| Text.IsSubstring | notify.py:23 | `sub in s` only when `sub` is no longer than `s`, and always for the empty pattern |
| Text.NotSubstringWithoutHead | notify.py:27 | a text lacking the pattern's first character does not contain the pattern |
| Text.ReplaceCharPointwise | sssb.py:79 | replacing one character by another keeps the length and swaps exactly the matching positions |
| Text.Replace | sssb.py:75 | deleting a pattern never lengthens the text, and a replacement as long as the pattern keeps the length |
| Text.ReplaceCharRemoves | sssb.py:79 | after replacing a character by a different one, the character no longer occurs |
| Text.ReplaceAbsent | sssb.py:75 | replacing a pattern that does not occur leaves the text unchanged |
| Text.DeletePairRemovesAll | sssb.py:75 | deleting a two-character pattern `ab` leaves no `ab`, provided the text has no `aa` |
| Text.Split | sssb.py:62 | splitting gives one piece more than there are separators, no piece holds the separator, and joining the pieces with the separator gives back the text |
| Text.SplitJoin | sssb.py:62 | two separator-free parts joined by the separator split back into exactly those two parts |
| Text.SplitUnique | sssb.py:62 | any separator-free pieces that join to the text are its split |
| Text.Before | sssb.py:62 | the part before the first separator is a separator-free prefix followed by the separator, when there is one |
| Sssb.ParseInt | sssb.py:53 | on a string of `isdigit` characters, which is all `extract_int` passes it, `int` succeeds exactly when the string is non-empty, every character is a decimal digit, and it is no longer than the digit limit; the value has no more decimal places than the string has digits, and a leading zero does not change it |
| Sssb.IsDigitChar | sssb.py:51 | `str.isdigit` on a Latin-1 character: the decimal digits and the superscripts ¹ ² ³ |
| Sssb.KeepDigits | sssb.py:49-51 | the kept characters are all digit characters and no more than the text has |
| Sssb.KeepDigitsDecimal | sssb.py:49-53 | the kept digits are all decimal exactly when the text has no superscript digit |
| Sssb.KeepDigitsAreDecimalDigits | sssb.py:49-51 | in a text without superscript digits, the characters `isdigit` keeps are exactly its decimal digits, in order |
| Sssb.KeepDigitsMembers | sssb.py:49-51 | the kept characters are exactly the digit characters of the text |
| Sssb.ExtractInt | sssb.py:48-53 | extraction fails exactly when a superscript digit occurs or the text has 4300 or more digits; otherwise it is the decimal value of the kept digits |
| Sssb.ExtractIntNoDigits | sssb.py:52 | a text without digit characters reads as 0 |
| Sssb.ExtractIntBound | sssb.py:48-53 | the value has no more decimal places than digits were kept |
| Sssb.ExtractIntIgnoresNonDigits | sssb.py:49-51 | inserting non-digit characters anywhere changes nothing |
| Sssb.ExtractIntConcat | sssb.py:48-53 | the digits of two texts concatenate: the value of `s + t` is the value of `s` shifted by the digit count of `t`, plus the value of `t`; it fails exactly when either part fails or their digits together reach the limit |
| Sssb.ExtractIntGrouped | sssb.py:79-80 | a number printed as two digit groups around a separator, followed by a unit, reads as the digits of both groups together, when the groups are below the digit limit |
| Sssb.DecimalValueConcat | sssb.py:53 | the decimal value of digits `a + b` is the value of `a` shifted by the length of `b`, plus the value of `b` |
| Sssb.DecimalValueBound | sssb.py:53 | `n` decimal digits denote a value below 10^n |
| Sssb.ExtractIntStrip | sssb.py:70-71 | stripping a text before extraction changes nothing |
| Sssb.ExtractIntThousands | sssb.py:79-80 | "12 500 kr" reads as 12500 |
| Sssb.ExtractIntNoDigitsExample | sssb.py:52 | "no digits" reads as 0 |
| Sssb.ExtractIntSuperscriptExample | sssb.py:48-53 | "25 m²" raises, because ² passes `isdigit` and fails `int` |
| Sssb.AreaArtifactRemoved | sssb.py:74-75 | after normalisation the area text holds no "Â²", provided it had no "ÂÂ" |
| Sssb.NormaliseArea | sssb.py:74-75 | the normalised area text is no longer than the text, keeps every decimal digit of the text in order, and a text without "Â" is only stripped |
| Sssb.DecimalDigitsStrip | sssb.py:74 | stripping keeps every decimal digit, in order |
| Sssb.DecimalDigitsDelete | sssb.py:75 | deleting every occurrence of a pattern that holds no decimal digit keeps every decimal digit, in order |
| Sssb.AreaWithoutArtifact | sssb.py:74-76 | an area text without "Â" reads the same with or without normalisation |
| Sssb.AreaArtifactExample | sssb.py:74-76 | the mis-encoded "25 mÂ²" reads as an area of 25 |
| Sssb.NormaliseRent | sssb.py:79 | the normalised rent text has no no-break space and no surrounding whitespace |
| Sssb.RentDigits | sssb.py:79-80 | normalising the rent text changes neither its number nor whether it can be read |
| Sssb.ParseAddress | sssb.py:62-64 | the address unpacks exactly when it has one "/"; the two sides are then the stripped text before and after it |
| Sssb.AddressExample | sssb.py:62-64 | "Storgatan 1 / 1201" gives the address "Storgatan 1" and the number "1201" |
| Sssb.FloorNumber | sssb.py:70-71 | the floor is the extraction of its text, and fails exactly when that text is unreadable |
| Sssb.AreaNumber | sssb.py:74-76 | the area fails exactly when its normalised text is unreadable; when it reads, it is the number that the decimal digits of the raw area text denote |
| Sssb.RentNumber | sssb.py:79-80 | the rent is the extraction of its text, and fails exactly when that text is unreadable |
| Sssb.ParseRawListing | sssb.py:55-95 | a block parses exactly when all eight lookups find their element, the address has one "/", and `int` accepts the digits of the floor, area and rent texts; the url is then the link's href as it stands, the other text fields are the stripped texts, and the numbers are the extracted ones |
| Sssb.ParsedFieldsClean | sssb.py:59-83 | every text field of a parsed listing except the url is stripped |
| Sssb.CurrentListings | sssb.py:101-103 | the page parses exactly when every block does, into one listing per block, in order |
| Sssb.CurrentListingsFirstError | sssb.py:102-103 | a failed page raises the error of its first bad block; every block before it is well-formed |
| Notify.IsRelevant | notify.py:22-29 | a listing is relevant exactly when its lower-cased type lacks "korridor" and holds "1 rum", and its area exceeds 25 |
| Notify.RelevanceExamples | notify.py:22-29 | a corridor room, a 20 m² flat and a two-room flat are not relevant; a 30 m² "1 rum och kök" is |
| Notify.ToSet | notify.py:77-79 | `set(...)` of a list of listings: the listings that occur in it, duplicates and order forgotten |
| Notify.ComputeDiff | notify.py:77-82 | new listings are the current ones that were not stored, the snapshot is every current or stored listing, and the relevant listings are the new ones that pass the relevance test |
| Notify.DiffShape | notify.py:77-82 | the snapshot splits into the new listings and the stored ones, which are disjoint; relevant listings are new, and new listings are current |
| Notify.DiffIdempotent | notify.py:77-89 | diffing the same scrape against the saved snapshot finds nothing new and saves the same snapshot |
| Notify.NotificationBound | notify.py:79-86 | no more mails than new listings, and no more new listings than scraped blocks |
| Notify.AsDict | sssb.py:44-45 | the field map has exactly the nine field names as keys |
| Notify.FromDict | notify.py:42-43 | a record builds a listing exactly when it has the nine keys with values of the declared types |
| Notify.DictRoundTrip | notify.py:42-43 | rebuilding a listing from its field map gives the same listing |
| Notify.DictRoundTripBack | notify.py:42-43 | a record that builds a listing is that listing's field map |
| Notify.SaveListings | notify.py:49-51 | one record per listing, in order, each rebuilding its listing |
| Notify.LoadPreviousListings | notify.py:38-46 | a missing or unreadable file, or any bad record, loads as no listings; otherwise one listing per record, each with that record as its field map |
| Notify.LoadSaveRoundTrip | notify.py:38-53 | loading what was saved gives back the same listings in the same order |
| Notify.Subject | notify.py:57 | the subject ends with " @ " and the address; `SubjectNamesApartment` fixes the bracketed number and the apartment type before it |
| Notify.SubjectNamesApartment | notify.py:57 | the subject opens with "[", the apartment number and "] ", the apartment type follows up to the " @ " address tail, and the number can be read back from between the brackets unless it holds "]" itself |
| Notify.ErrorSubject | notify.py:92 | the fixed subject of the error mail |
| Notify.RunOnce | notify.py:72-94 | a run reports an error exactly when some block is malformed, using the fixed error subject; otherwise it mails exactly the new relevant listings and saves every current or stored listing |
| Notify.RerunNotifiesNothing | notify.py:72-89 | rerunning on the same page after saving the snapshot, in any order, mails nothing and saves the same snapshot |

## Left out

- Browser and page access: the Chrome driver, `get_html` and its sleep (sssb.py:14-29), and the BeautifulSoup lookups. A block arrives as the texts of its elements, or `None` for an element the lookup did not find.
- Mail delivery: `notify`, its sleep and the credentials from the environment (notify.py:13-16, 32-35). A run returns the set of listings it mails instead of sending anything.
- The mail body and its whitespace cosmetics (notify.py:58-68), the printed progress lines, and the contents of the error mail (the exception's name and message). An error run keeps only the fixed subject and the modelled error.
- File access and the JSON text: `json.load` and `json.dump` and the tracking file. A stored snapshot is `None` when the file is missing or does not hold an array of objects, and otherwise the sequence of its objects as maps from keys to JSON values.
- Notify.FromDict: Python's `Listing(**d)` accepts values of any JSON type, because dataclasses do not check types. The model rejects a value of the wrong type, so a snapshot with, for example, a string floor loads as empty here, where the source would load it.
- Notify.RunOnce: a failing mail send, or a failing save, would raise in the source. The source then reports the error, and a send failure also skips the save. The model assumes that sending and saving succeed.
- Notify.RunOnce: a stored record whose field holds a JSON array or object is accepted by `Listing(**d)`. The listing's unhashable field then makes `set(previous_listings)` raise `TypeError`, so the source mails the error subject and saves nothing. The model rejects that record in `FromDict`, loads no previous listings, and completes the run.
- Sssb.ParseInt: the digit limit is CPython's default of 4300. A Python without the limit, or one configured with `sys.set_int_max_str_digits`, reads longer digit strings.
- Unicode beyond Latin-1: `isdigit` is modelled for Latin-1. Digits of other scripts are treated as non-digits. `lower` is modelled for ASCII and Latin-1 only; `strip` uses the full whitespace set.
- Sssb.AreaArtifactRemoved: a single pass of `replace` can leave a "Â²" behind when two "Â" stand together ("ÂÂ²²" becomes "Â²"). So the claim that no "Â²" survives is stated only for texts without "ÂÂ".
- The order in which `main` iterates over the set of new listings is not specified in Python. The model keeps the relevant listings as a set.
