/** The scraper side of the watcher: the `Listing` record, the digit
    extractor `extract_int`, the field normalisation of `parse_raw_listing`
    and the per-block mapping of `current_listings` (sssb.py). The page fetch
    and the DOM lookups stay outside: each lookup arrives as an optional text. */
module Sssb {
  import opened Results
  import opened Text

  /** One apartment listing; as with the frozen dataclass, two listings are
      equal exactly when all nine fields are. */
  datatype Listing = Listing(
    url: string,
    apartmentType: string,
    adress: string,
    apartmentNumber: string,
    region: string,
    floor: int,
    squareMeters: int,
    rent: int,
    moveInDate: string)

  /** What makes a scrape raise. */
  datatype ParseError =
    | MissingElement(what: string)    // a lookup found no element: AttributeError
    | AddressUnpack(pieces: nat)      // the address did not split into two: ValueError
    | InvalidLiteral(literal: string) // `int` refused the digit string: ValueError
    | DigitLimit(digits: nat)         // `int` refused a string that long: ValueError

  // ---------------------------------------------------------------------------
  // extract_int

  predicate IsDecimalDigit(c: char) {
    '0' <= c <= '9'
  }

  /** The superscripts one, two and three: `str.isdigit` accepts them, `int`
      does not. */
  predicate IsSuperscriptDigit(c: char) {
    c == '\U{B9}' || c == '\U{B2}' || c == '\U{B3}'
  }

  /** `str.isdigit` for the Latin-1 range. */
  predicate IsDigitChar(c: char) {
    IsDecimalDigit(c) || IsSuperscriptDigit(c)
  }

  predicate HasSuperscriptDigit(s: string) {
    exists k :: 0 <= k < |s| && IsSuperscriptDigit(s[k])
  }

  predicate AllDecimal(s: string) {
    forall k :: 0 <= k < |s| ==> IsDecimalDigit(s[k])
  }

  /** The decimal digits '0'..'9' of `s`, in order. */
  function DecimalDigits(s: string): (r: string)
    ensures |r| <= |s|
    ensures AllDecimal(r)
  {
    if s == [] then [] else (if IsDecimalDigit(s[0]) then [s[0]] else []) + DecimalDigits(s[1..])
  }

  /** The digit characters of `s`, in order. */
  function KeepDigits(s: string): (r: string)
    ensures |r| <= |s|
    ensures forall k :: 0 <= k < |r| ==> IsDigitChar(r[k])
  {
    if s == [] then [] else (if IsDigitChar(s[0]) then [s[0]] else []) + KeepDigits(s[1..])
  }

  /** `KeepDigits` keeps exactly the digit characters. */
  lemma {:induction false} KeepDigitsMembers(s: string, c: char)
    ensures c in KeepDigits(s) <==> c in s && IsDigitChar(c)
  {
    if s != [] {
      KeepDigitsMembers(s[1..], c);
      assert s == [s[0]] + s[1..];
    }
  }

  function Pow10(n: nat): (p: nat)
    ensures p >= 1
  {
    if n == 0 then 1 else 10 * Pow10(n - 1)
  }

  /** The number a string of decimal digits denotes. */
  function DecimalValue(ds: string): nat
    requires AllDecimal(ds)
  {
    if ds == [] then 0 else DecimalValue(ds[..|ds| - 1]) * 10 + (ds[|ds| - 1] as int - '0' as int)
  }

  /** CPython's default bound on the length of a decimal string that `int`
      converts (`sys.get_int_max_str_digits()`, since 3.11, 3.10.7 and
      3.9.14); a longer string makes `int` raise ValueError. */
  const MaxStrDigits: nat := 4300

  /** Python's `int(ds)` for a string of `isdigit` characters: the value when
      every character is a decimal digit and there are at most `MaxStrDigits`
      of them, a ValueError otherwise. The value never has more places than
      the string has digits, and a leading zero does not change it. */
  function ParseInt(ds: string): (r: Result<nat, ParseError>)
    ensures r.Ok? <==> ds != [] && AllDecimal(ds) && |ds| <= MaxStrDigits
    ensures r.Ok? ==> r.value < Pow10(|ds|)
    ensures r.Ok? && |ds| > 1 && ds[0] == '0' ==> AllDecimal(ds[1..]) && r.value == DecimalValue(ds[1..])
  {
    if ds == [] || !AllDecimal(ds) then Err(InvalidLiteral(ds))
    else if |ds| > MaxStrDigits then Err(DigitLimit(|ds|))
    else
      DecimalValueBound(ds);
      assert |ds| > 1 && ds[0] == '0' ==> AllDecimal(ds[1..]) && DecimalValue(ds) == DecimalValue(ds[1..]) by {
        if |ds| > 1 && ds[0] == '0' {
          LeadingZero(ds);
        }
      }
      Ok(DecimalValue(ds))
  }

  lemma LeadingZero(ds: string)
    requires AllDecimal(ds) && |ds| > 1 && ds[0] == '0'
    ensures AllDecimal(ds[1..]) && DecimalValue(ds) == DecimalValue(ds[1..])
  {
    assert ds == "0" + ds[1..];
    DecimalValueConcat("0", ds[1..]);
    assert DecimalValue("0") == 0;
  }

  /** The texts `extract_int` reads without raising: no superscript digit,
      and fewer digits than `MaxStrDigits`, since a "0" is put in front. */
  predicate Readable(text: string) {
    !HasSuperscriptDigit(text) && |KeepDigits(text)| < MaxStrDigits
  }

  /** `extract_int`: the digits of the text, in order, read as a decimal
      number; the leading "0" makes a text without digits read as 0. It
      raises exactly on the texts that are not `Readable`. */
  function ExtractInt(text: string): (r: Result<nat, ParseError>)
    ensures r.Ok? <==> Readable(text)
    ensures r.Ok? ==> AllDecimal(KeepDigits(text)) && r.value == DecimalValue(KeepDigits(text))
  {
    KeepDigitsDecimal(text);
    ZeroPrefixed(KeepDigits(text));
    ParseInt("0" + KeepDigits(text))
  }

  /** `int` of a digit string with a "0" in front. */
  lemma ZeroPrefixed(ds: string)
    ensures ParseInt("0" + ds).Ok? <==> AllDecimal(ds) && |ds| < MaxStrDigits
    ensures ParseInt("0" + ds).Ok? ==> AllDecimal(ds) && ParseInt("0" + ds).value == DecimalValue(ds)
  {
    var zs := "0" + ds;
    assert zs[1..] == ds;
    assert AllDecimal(zs) <==> AllDecimal(ds) by {
      assert forall k :: 0 <= k < |ds| ==> zs[k + 1] == ds[k];
    }
    if ds == [] {
      assert DecimalValue("0") == 0;
    }
  }

  lemma {:induction false} KeepDigitsConcat(s: string, t: string)
    ensures KeepDigits(s + t) == KeepDigits(s) + KeepDigits(t)
  {
    if s != [] {
      assert (s + t)[1..] == s[1..] + t;
      KeepDigitsConcat(s[1..], t);
    } else {
      assert s + t == t;
    }
  }

  lemma {:induction false} DecimalValueConcat(a: string, b: string)
    requires AllDecimal(a) && AllDecimal(b)
    ensures AllDecimal(a + b)
    ensures DecimalValue(a + b) == DecimalValue(a) * Pow10(|b|) + DecimalValue(b)
    decreases |b|
  {
    if b == [] {
      assert a + b == a;
    } else {
      var b' := b[..|b| - 1];
      assert AllDecimal(b');
      assert (a + b)[..|a + b| - 1] == a + b';
      DecimalValueConcat(a, b');
      var x, p, y := DecimalValue(a), Pow10(|b'|), DecimalValue(b');
      var d := b[|b| - 1] as int - '0' as int;
      assert DecimalValue(a + b) == DecimalValue(a + b') * 10 + d;
      assert DecimalValue(b) == y * 10 + d;
      assert Pow10(|b|) == p * 10;
      ShiftStep(x, p, y, d);
    }
  }

  lemma ShiftStep(x: int, p: int, y: int, d: int)
    ensures (x * p + y) * 10 + d == x * (p * 10) + (y * 10 + d)
  {
  }

  lemma {:induction false} DecimalValueBound(ds: string)
    requires AllDecimal(ds)
    ensures DecimalValue(ds) < Pow10(|ds|)
  {
    if ds != [] {
      DecimalValueBound(ds[..|ds| - 1]);
    }
  }

  /** The digits kept from a text are all decimal exactly when the text has
      no superscript digit. */
  lemma KeepDigitsDecimal(text: string)
    ensures AllDecimal(KeepDigits(text)) <==> !HasSuperscriptDigit(text)
  {
    var ds := KeepDigits(text);
    if !HasSuperscriptDigit(text) {
      forall k | 0 <= k < |ds| ensures IsDecimalDigit(ds[k]) {
        KeepDigitsMembers(text, ds[k]);
      }
    } else {
      var k :| 0 <= k < |text| && IsSuperscriptDigit(text[k]);
      SuperscriptIsNotDecimal(text[k]);
      KeepDigitsMembers(text, text[k]);
    }
  }

  /** A text without digit characters keeps no digits. */
  lemma {:induction false} KeepDigitsNone(s: string)
    requires forall k :: 0 <= k < |s| ==> !IsDigitChar(s[k])
    ensures KeepDigits(s) == []
  {
    if s != [] {
      KeepDigitsNone(s[1..]);
    }
  }

  /** A text without digit characters reads as 0. */
  lemma ExtractIntNoDigits(text: string)
    requires forall k :: 0 <= k < |text| ==> !IsDigitChar(text[k])
    ensures ExtractInt(text) == Ok(0)
  {
    KeepDigitsNone(text);
    assert DecimalValue("0") == 0;
  }

  /** The number is smaller than 10 to the power of the number of digits. */
  lemma ExtractIntBound(text: string)
    requires ExtractInt(text).Ok?
    ensures ExtractInt(text).value < Pow10(|KeepDigits(text)|)
  {
    DecimalValueBound(KeepDigits(text));
  }

  /** Characters that are not digits, inserted anywhere, change nothing. */
  lemma ExtractIntIgnoresNonDigits(a: string, x: string, b: string)
    requires forall k :: 0 <= k < |x| ==> !IsDigitChar(x[k])
    ensures ExtractInt(a + x + b) == ExtractInt(a + b)
  {
    KeepDigitsConcat(a + x, b);
    KeepDigitsConcat(a, x);
    KeepDigitsConcat(a, b);
    KeepDigitsNone(x);
    assert KeepDigits(a + x) == KeepDigits(a) + [] == KeepDigits(a);
  }

  /** Extraction over a concatenation: the first part's number shifted by the
      second part's digit count, plus the second part's number. So "12 500"
      reads as 12500 and leading zeros vanish. */
  lemma ExtractIntConcat(s: string, t: string)
    ensures ExtractInt(s + t).Ok? <==>
      ExtractInt(s).Ok? && ExtractInt(t).Ok? && |KeepDigits(s)| + |KeepDigits(t)| < MaxStrDigits
    ensures ExtractInt(s + t).Ok? ==>
      ExtractInt(s + t).value == ExtractInt(s).value * Pow10(|KeepDigits(t)|) + ExtractInt(t).value
  {
    var ks, kt := KeepDigits(s), KeepDigits(t);
    KeepDigitsConcat(s, t);
    KeepDigitsDecimal(s);
    KeepDigitsDecimal(t);
    KeepDigitsDecimal(s + t);
    assert AllDecimal(ks + kt) <==> AllDecimal(ks) && AllDecimal(kt) by {
      assert forall k :: 0 <= k < |ks| ==> (ks + kt)[k] == ks[k];
      assert forall k :: 0 <= k < |kt| ==> (ks + kt)[|ks| + k] == kt[k];
    }
    if ExtractInt(s + t).Ok? {
      DecimalValueConcat(ks, kt);
    }
  }

  /** Surrounding whitespace does not change the number. */
  lemma ExtractIntStrip(s: string)
    ensures ExtractInt(Strip(s)) == ExtractInt(s)
  {
    KeepDigitsTrimStart(s);
    KeepDigitsTrimEnd(TrimStart(s));
  }

  lemma SuperscriptIsNotDecimal(c: char)
    requires IsSuperscriptDigit(c)
    ensures !IsDecimalDigit(c)
  {
  }

  lemma SpaceIsNoDigit(c: char)
    requires IsSpace(c)
    ensures !IsDigitChar(c)
  {
  }

  lemma {:induction false} KeepDigitsTrimStart(s: string)
    ensures KeepDigits(TrimStart(s)) == KeepDigits(s)
  {
    if s != [] && IsSpace(s[0]) {
      SpaceIsNoDigit(s[0]);
      KeepDigitsTrimStart(s[1..]);
    }
  }

  lemma {:induction false} KeepDigitsTrimEnd(s: string)
    ensures KeepDigits(TrimEnd(s)) == KeepDigits(s)
  {
    if s != [] && IsSpace(s[|s| - 1]) {
      var init := s[..|s| - 1];
      KeepDigitsTrimEnd(init);
      assert s == init + [s[|s| - 1]];
      KeepDigitsConcat(init, [s[|s| - 1]]);
      SpaceIsNoDigit(s[|s| - 1]);
      assert KeepDigits([s[|s| - 1]]) == [];
    }
  }

  lemma {:induction false} DecimalDigitsConcat(s: string, t: string)
    ensures DecimalDigits(s + t) == DecimalDigits(s) + DecimalDigits(t)
  {
    if s != [] {
      assert (s + t)[1..] == s[1..] + t;
      DecimalDigitsConcat(s[1..], t);
    } else {
      assert s + t == t;
    }
  }

  lemma {:induction false} DecimalDigitsNone(s: string)
    requires forall k :: 0 <= k < |s| ==> !IsDecimalDigit(s[k])
    ensures DecimalDigits(s) == []
  {
    if s != [] {
      DecimalDigitsNone(s[1..]);
    }
  }

  /** Without a superscript, the digit characters are the decimal digits. */
  lemma {:induction false} KeepDigitsAreDecimalDigits(s: string)
    requires !HasSuperscriptDigit(s)
    ensures KeepDigits(s) == DecimalDigits(s)
  {
    if s != [] {
      assert !HasSuperscriptDigit(s[1..]) by {
        assert forall k :: 0 <= k < |s| - 1 ==> s[1..][k] == s[k + 1];
      }
      KeepDigitsAreDecimalDigits(s[1..]);
    }
  }

  /** Stripping keeps every decimal digit. */
  lemma DecimalDigitsStrip(s: string)
    ensures DecimalDigits(Strip(s)) == DecimalDigits(s)
  {
    DecimalDigitsTrimStart(s);
    DecimalDigitsTrimEnd(TrimStart(s));
  }

  lemma {:induction false} DecimalDigitsTrimStart(s: string)
    ensures DecimalDigits(TrimStart(s)) == DecimalDigits(s)
  {
    if s != [] && IsSpace(s[0]) {
      DecimalDigitsTrimStart(s[1..]);
    }
  }

  lemma {:induction false} DecimalDigitsTrimEnd(s: string)
    ensures DecimalDigits(TrimEnd(s)) == DecimalDigits(s)
  {
    if s != [] && IsSpace(s[|s| - 1]) {
      var init := s[..|s| - 1];
      DecimalDigitsTrimEnd(init);
      assert s == init + [s[|s| - 1]];
      DecimalDigitsConcat(init, [s[|s| - 1]]);
      assert DecimalDigits([s[|s| - 1]]) == [];
    }
  }

  /** Deleting every occurrence of a pattern without decimal digits keeps
      every decimal digit. */
  lemma {:induction false} DecimalDigitsDelete(s: string, pattern: string)
    requires pattern != []
    requires DecimalDigits(pattern) == []
    ensures DecimalDigits(Replace(s, pattern, [])) == DecimalDigits(s)
    decreases |s|
  {
    if |s| >= |pattern| {
      if s[..|pattern|] == pattern {
        DecimalDigitsDelete(s[|pattern|..], pattern);
        assert s == pattern + s[|pattern|..];
        DecimalDigitsConcat(pattern, s[|pattern|..]);
        assert Replace(s, pattern, []) == Replace(s[|pattern|..], pattern, []);
      } else {
        DecimalDigitsDelete(s[1..], pattern);
        var rest := Replace(s[1..], pattern, []);
        assert ([s[0]] + rest)[1..] == rest;
      }
    }
  }

  // ---------------------------------------------------------------------------
  // parse_raw_listing

  /** The mis-encoded superscript two, "Â²". */
  const AreaArtifact: string := "\U{C2}\U{B2}"

  /** The area text: stripped, then every "Â²" removed. It is never longer
      than the text, it keeps every decimal digit of the text, and a text
      without "Â" is only stripped. */
  function NormaliseArea(text: string): (r: string)
    ensures |r| <= |text|
    ensures DecimalDigits(r) == DecimalDigits(text)
    ensures '\U{C2}' !in text ==> r == Strip(text)
  {
    var stripped := Strip(text);
    DecimalDigitsStrip(text);
    DecimalDigitsNone(AreaArtifact);
    DecimalDigitsDelete(stripped, AreaArtifact);
    StripKeepsNonSpace(text, '\U{C2}');
    assert '\U{C2}' !in stripped ==> Replace(stripped, AreaArtifact, []) == stripped by {
      if '\U{C2}' !in stripped {
        NotSubstringWithoutHead(AreaArtifact, stripped);
        ReplaceAbsent(stripped, AreaArtifact, []);
      }
    }
    Replace(stripped, AreaArtifact, [])
  }

  /** No "Â²" survives the area normalisation as long as the text never has
      two "Â" in a row. */
  lemma AreaArtifactRemoved(text: string)
    requires !IsSubstring("\U{C2}\U{C2}", text)
    ensures !IsSubstring(AreaArtifact, NormaliseArea(text))
  {
    SubstringOfStrip("\U{C2}\U{C2}", text);
    DeletePairRemovesAll(Strip(text), '\U{C2}', '\U{B2}');
  }

  /** The rent text: no-break spaces made plain spaces, then stripped. */
  function NormaliseRent(text: string): (r: string)
    ensures '\U{A0}' !in r
    ensures IsStripped(r)
  {
    ReplaceCharRemoves(text, '\U{A0}', ' ');
    var t := Replace(text, "\U{A0}", " ");
    StripKeepsNonSpace(t, '\U{A0}');
    Strip(t)
  }

  /** A pattern found in the stripped text is found in the text. */
  lemma SubstringOfStrip(p: string, s: string)
    ensures IsSubstring(p, Strip(s)) ==> IsSubstring(p, s)
  {
    SubstringOfTrimStart(p, s);
    SubstringOfTrimEnd(p, TrimStart(s));
  }

  /** The texts one listing block offers: `None` where the lookup finds no
      element (the title element, the link in it, and the address, region,
      floor, area, rent and move-in fields). */
  datatype RawListing = RawListing(
    title: Option<string>,
    href: Option<string>,
    address: Option<string>,
    region: Option<string>,
    floor: Option<string>,
    area: Option<string>,
    rent: Option<string>,
    moveIn: Option<string>)

  function Found(o: Option<string>, what: string): (r: Result<string, ParseError>)
    ensures r.Ok? <==> o.Some?
    ensures r.Ok? ==> r.value == o.value
  {
    match o
    case Some(t) => Ok(t)
    case None => Err(MissingElement(what))
  }

  /** `adress` and `number` are the stripped texts on either side of the
      first "/" in `address`, and no other "/" follows it. */
  predicate AddressSides(address: string, adress: string, number: string) {
    var i := |Before(address, '/')|;
    && i < |address|
    && '/' !in address[i + 1..]
    && adress == Strip(address[..i])
    && number == Strip(address[i + 1..])
  }

  /** The unpacking `adress, apartment_number = text.split("/")` followed by
      the two strips. */
  function ParseAddress(text: string): (r: Result<(string, string), ParseError>)
    ensures r.Ok? <==> Occurrences(text, '/') == 1
    ensures r.Ok? ==> AddressSides(text, r.value.0, r.value.1)
  {
    var parts := Split(text, '/');
    if |parts| != 2 then Err(AddressUnpack(|parts|))
    else
      AddressFromSplit(text);
      Ok((Strip(parts[0]), Strip(parts[1])))
  }

  /** Splitting on the only "/" gives the two sides of it. */
  lemma AddressFromSplit(address: string)
    requires Occurrences(address, '/') == 1
    ensures AddressSides(address, Strip(Split(address, '/')[0]), Strip(Split(address, '/')[1]))
  {
    var parts := Split(address, '/');
    assert Join(parts[1..], '/') == parts[1];
    assert address == parts[0] + ['/'] + parts[1];
    BeforeJoin(parts[0], '/', parts[1]);
    var i := |parts[0]|;
    assert address[..i] == parts[0];
    assert address[i + 1..] == parts[1];
  }

  /** The blocks `parse_raw_listing` accepts: every element is there, the
      address holds exactly one "/", and `int` accepts the digits of the
      floor, area and rent texts. */
  predicate WellFormed(raw: RawListing) {
    && raw.title.Some?
    && raw.href.Some?
    && raw.address.Some? && Occurrences(raw.address.value, '/') == 1
    && raw.region.Some?
    && raw.floor.Some? && Readable(raw.floor.value)
    && raw.area.Some? && Readable(NormaliseArea(raw.area.value))
    && raw.rent.Some? && Readable(raw.rent.value)
    && raw.moveIn.Some?
  }

  /** What an accepted block yields, field by field. */
  predicate ListingOf(raw: RawListing, l: Listing)
    requires WellFormed(raw)
  {
    && l.url == raw.href.value
    && l.apartmentType == Strip(raw.title.value)
    && AddressSides(raw.address.value, l.adress, l.apartmentNumber)
    && l.region == Strip(raw.region.value)
    && ExtractInt(raw.floor.value) == Ok(l.floor)
    && ExtractInt(NormaliseArea(raw.area.value)) == Ok(l.squareMeters)
    && ExtractInt(raw.rent.value) == Ok(l.rent)
    && l.moveInDate == Strip(raw.moveIn.value)
  }

  /** `parse_raw_listing`: lookups, address split and number extraction in
      the order the source performs them; the first failure is the error. */
  function ParseRawListing(raw: RawListing): (r: Result<Listing, ParseError>)
    ensures r.Ok? <==> WellFormed(raw)
    ensures r.Ok? ==> ListingOf(raw, r.value)
  {
    var title :- Found(raw.title, "ObjektTyp");
    var url :- Found(raw.href, "href");
    var addressText :- Found(raw.address, "ObjektAdress");
    var sides :- ParseAddress(addressText);
    var region :- Found(raw.region, "ObjektOmrade");
    var floorText :- Found(raw.floor, "ObjektVaning hidden-phone");
    var floor :- FloorNumber(floorText);
    var areaText :- Found(raw.area, "ObjektYta");
    var squareMeters :- AreaNumber(areaText);
    var rentText :- Found(raw.rent, "ObjektHyra");
    var rent :- RentNumber(rentText);
    var moveIn :- Found(raw.moveIn, "ObjektInflytt hidden-phone");
    Ok(Listing(url, Strip(title), sides.0, sides.1, Strip(region), floor, squareMeters, rent, Strip(moveIn)))
  }

  /** The floor number: `extract_int` of the stripped floor text. */
  function FloorNumber(text: string): (r: Result<nat, ParseError>)
    ensures r == ExtractInt(text)
    ensures r.Ok? <==> Readable(text)
  {
    ExtractIntStrip(text);
    ExtractInt(Strip(text))
  }

  /** The area in square metres: `extract_int` of the normalised area text.
      When it reads, it is the number the decimal digits of the raw text
      denote. */
  function AreaNumber(text: string): (r: Result<nat, ParseError>)
    ensures r.Ok? <==> Readable(NormaliseArea(text))
    ensures r.Ok? ==> AllDecimal(DecimalDigits(text)) && r.value == DecimalValue(DecimalDigits(text))
  {
    var normalised := NormaliseArea(text);
    assert Readable(normalised) ==> KeepDigits(normalised) == DecimalDigits(normalised) by {
      if Readable(normalised) {
        KeepDigitsAreDecimalDigits(normalised);
      }
    }
    ExtractInt(normalised)
  }

  /** The rent: `extract_int` of the normalised rent text. */
  function RentNumber(text: string): (r: Result<nat, ParseError>)
    ensures r == ExtractInt(text)
    ensures r.Ok? <==> Readable(text)
  {
    RentDigits(text);
    ExtractInt(NormaliseRent(text))
  }

  /** Every text field of a parsed listing except the URL is stripped. */
  lemma ParsedFieldsClean(raw: RawListing)
    requires ParseRawListing(raw).Ok?
    ensures var l := ParseRawListing(raw).value;
      && IsStripped(l.apartmentType) && IsStripped(l.adress) && IsStripped(l.apartmentNumber)
      && IsStripped(l.region) && IsStripped(l.moveInDate)
  {
  }

  /** Normalising the rent text changes neither its number nor whether it
      can be read. */
  lemma RentDigits(text: string)
    ensures ExtractInt(NormaliseRent(text)) == ExtractInt(text)
  {
    var t := Replace(text, "\U{A0}", " ");
    ReplaceCharPointwise(text, '\U{A0}', ' ');
    ExtractIntStrip(t);
    assert KeepDigits(t) == KeepDigits(text) by {
      SameDigitsPointwise(t, text);
    }
  }

  /** Two texts of one length that differ only in non-digit positions keep
      the same digits. */
  lemma {:induction false} SameDigitsPointwise(s: string, t: string)
    requires |s| == |t|
    requires forall k :: 0 <= k < |s| ==> s[k] == t[k] || (!IsDigitChar(s[k]) && !IsDigitChar(t[k]))
    ensures KeepDigits(s) == KeepDigits(t)
  {
    if s != [] {
      SameDigitsPointwise(s[1..], t[1..]);
    }
  }

  /** An area text without "Â" is read as it stands: stripping and the
      artifact removal leave its number, or its error, alone. */
  lemma AreaWithoutArtifact(text: string)
    requires '\U{C2}' !in text
    ensures ExtractInt(NormaliseArea(text)) == ExtractInt(text)
  {
    ExtractIntStrip(text);
  }

  // ---------------------------------------------------------------------------
  // current_listings

  /** `current_listings` over the blocks of one page: one listing per block,
      in document order, when every block parses. */
  function CurrentListings(raws: seq<RawListing>): (r: Result<seq<Listing>, ParseError>)
    ensures r.Ok? <==> forall k :: 0 <= k < |raws| ==> WellFormed(raws[k])
    ensures r.Ok? ==> |r.value| == |raws|
    ensures r.Ok? ==> forall k :: 0 <= k < |raws| ==> ParseRawListing(raws[k]) == Ok(r.value[k])
  {
    MapAll(ParseRawListing, raws)
  }

  /** A scrape that fails raises the error of the first block that does not
      parse; every block before it parses. */
  lemma CurrentListingsFirstError(raws: seq<RawListing>)
    requires CurrentListings(raws).Err?
    ensures exists k :: (0 <= k < |raws| && ParseRawListing(raws[k]) == Err(CurrentListings(raws).error)
      && forall j :: 0 <= j < k ==> WellFormed(raws[j]))
  {
    MapAllFirstError(ParseRawListing, raws);
  }

  // ---------------------------------------------------------------------------
  // Worked examples

  /** A number printed in two digit groups with a separator and a unit reads
      as the digits of both groups together. */
  lemma ExtractIntGrouped(high: string, sep: string, low: string, unit: string)
    requires AllDecimal(high) && AllDecimal(low)
    requires forall k :: 0 <= k < |sep| ==> !IsDigitChar(sep[k])
    requires forall k :: 0 <= k < |unit| ==> !IsDigitChar(unit[k])
    requires |high| + |low| < MaxStrDigits
    ensures AllDecimal(high + low)
    ensures ExtractInt(high + sep + low + unit) == Ok(DecimalValue(high + low))
  {
    KeepDigitsGrouped(high, sep, low, unit);
    KeepDigitsDecimal(high + sep + low + unit);
  }

  lemma KeepDigitsGrouped(high: string, sep: string, low: string, unit: string)
    requires AllDecimal(high) && AllDecimal(low)
    requires forall k :: 0 <= k < |sep| ==> !IsDigitChar(sep[k])
    requires forall k :: 0 <= k < |unit| ==> !IsDigitChar(unit[k])
    ensures KeepDigits(high + sep + low + unit) == high + low
  {
    var front := high + sep;
    KeepDigitsConcat(high, sep);
    DigitsRead(high);
    KeepDigitsNone(sep);
    assert KeepDigits(front) == high;
    KeepDigitsConcat(front, low);
    DigitsRead(low);
    assert KeepDigits(front + low) == high + low;
    KeepDigitsConcat(front + low, unit);
    KeepDigitsNone(unit);
    assert KeepDigits(front + low + unit) == high + low;
  }

  /** "12 500 kr" reads as 12500: the space and the unit are ignored. */
  lemma ExtractIntThousands()
    ensures ExtractInt("12 500 kr") == Ok(12500)
  {
    assert "12 500 kr" == "12" + " " + "500" + " kr";
    ExtractIntGrouped("12", " ", "500", " kr");
    assert "12" + "500" == "12500";
    DecimalValueExample();
  }

  lemma DecimalValueExample()
    ensures DecimalValue("12500") == 12500
  {
    assert "12500"[..4] == "1250";
    assert "1250"[..3] == "125";
    assert "125"[..2] == "12";
    assert "12"[..1] == "1";
    assert "1"[..0] == "";
  }

  /** A text of decimal digits keeps all of them. */
  lemma {:induction false} DigitsRead(ds: string)
    requires AllDecimal(ds)
    ensures KeepDigits(ds) == ds
  {
    if ds != [] {
      DigitsRead(ds[1..]);
      assert IsDigitChar(ds[0]);
      assert [ds[0]] + ds[1..] == ds;
    }
  }

  /** A text without digits reads as 0. */
  lemma ExtractIntNoDigitsExample()
    ensures ExtractInt("no digits") == Ok(0)
  {
    ExtractIntNoDigits("no digits");
  }

  /** A correctly decoded "m²" makes `int` raise, since the superscript two
      passes `isdigit`. */
  lemma ExtractIntSuperscriptExample()
    ensures ExtractInt("25 m\U{B2}").Err?
  {
    assert "25 m\U{B2}"[4] == '\U{B2}';
  }

  /** With the mis-encoded "mÂ²" the artifact is removed before extraction
      and the area reads as 25. */
  lemma AreaArtifactExample()
    ensures AreaNumber("25 m\U{C2}\U{B2}") == Ok(25)
  {
    AreaArtifactStripped();
    AreaDigitsExample();
  }

  lemma AreaDigitsExample()
    ensures ExtractInt("25 m") == Ok(25)
  {
    assert "25 m" == "25" + " m" + "" + "";
    ExtractIntGrouped("25", " m", "", "");
    assert "25" + "" == "25";
    assert "25"[..1] == "2";
  }

  lemma AreaArtifactStripped()
    ensures NormaliseArea("25 m\U{C2}\U{B2}") == "25 m"
  {
    StripStripped("25 m\U{C2}\U{B2}");
  }

  /** "Storgatan 1 / 1201" splits into "Storgatan 1" and "1201". */
  lemma AddressExample()
    ensures ParseAddress("Storgatan 1 / 1201") == Ok(("Storgatan 1", "1201"))
  {
    SplitExample();
    StripExamples();
  }

  lemma StripExamples()
    ensures Strip("Storgatan 1 ") == "Storgatan 1"
    ensures Strip(" 1201") == "1201"
  {
    assert "Storgatan 1 "[..11] == "Storgatan 1";
    assert TrimStart(" 1201") == "1201";
  }

  lemma SplitExample()
    ensures Split("Storgatan 1 / 1201", '/') == ["Storgatan 1 ", " 1201"]
  {
    assert "Storgatan 1 / 1201" == "Storgatan 1 " + ['/'] + " 1201";
    assert '/' !in "Storgatan 1 ";
    assert '/' !in " 1201";
    SplitJoin("Storgatan 1 ", " 1201", '/');
  }
}
