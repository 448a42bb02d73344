/**
 `Range` headers (RFC 7233 section 2.1) and the three ways handle_file_request serves them: a direct
 seek, a streamed decompression, or a slice of the full decode.
 */
module Ranges {
  import opened Base
  import opened Text
  import opened Pipeline
  import opened Cache
  import opened Store
  import opened Integrity
  import opened Coherence
  import Streaming

  // ---- Parsing ----

  function ParseRange(value: string, total: nat): Option<(nat, nat)> {
    match StripPrefix(value, "bytes=")
    case None => None
    case Some(spec) =>
      if ',' in spec then None
      else match SplitOnce(spec, '-')
        case None => None
        case Some((first, last)) => Bounds(first, last, total)
  }

  /** The two sides of the dash, clamped to the file. */
  function Bounds(first: string, last: string, total: nat): Option<(nat, nat)> {
    if first == "" then
      (match ParseU64(last)
       case None => None
       case Some(n) =>
         if n == 0 || total == 0 then None
         else Some((if n < total then total - n else 0, total - 1)))
    else
      match ParseU64(first)
      case None => None
      case Some(start) =>
        match (if last == "" then Some(if total == 0 then 0 else total - 1) else ParseU64(last))
        case None => None
        case Some(end) =>
          if start > end || start >= total then None
          else Some((start, Min(end, total - 1)))
  }

  /** A header that looks like a single byte range but selects nothing is answered 416. */
  predicate LooksLikeByteRange(value: string) {
    match StripPrefix(value, "bytes=")
    case None => false
    case Some(spec) => ',' !in spec
  }

  /** The three forms of a byte range. */
  datatype RangeSpec = Span(first: nat, last: nat) | From(first: nat) | Suffix(length: nat)

  /** The header texts the parser takes for a range, with its own 64-bit reading of numerals. */
  ghost predicate TakenFor(value: string, spec: RangeSpec) {
    match spec
    case Span(first, last) => exists x, y :: SpanText(value, x, y) && ParseU64(x) == Some(first) && ParseU64(y) == Some(last)
    case From(first) => exists x :: SpanText(value, x, "") && ParseU64(x) == Some(first)
    case Suffix(length) => exists y :: SpanText(value, "", y) && ParseU64(y) == Some(length)
  }

  predicate SpanText(value: string, x: string, y: string) {
    value == "bytes=" + (x + "-" + y)
  }

  /** The positions of a representation that a range selects. */
  predicate Selects(spec: RangeSpec, i: nat, total: nat) {
    i < total &&
    match spec
    case Span(first, last) => first <= i <= last
    case From(first) => first <= i
    case Suffix(length) => total - length <= i
  }

  lemma NumeralsArePlain(x: string)
    requires ParseU64(x).Some?
    ensures x != "" && '-' !in x && ',' !in x
  {
    forall c | c in x
      ensures c == '+' || IsDigit(c)
    {
      var i :| 0 <= i < |x| && x[i] == c;
      assert i > 0 ==> c == x[1..][i - 1];
    }
  }

  lemma SpanTextParts(value: string, x: string, y: string)
    requires SpanText(value, x, y) && '-' !in x && ',' !in x && ',' !in y
    ensures StripPrefix(value, "bytes=") == Some(x + "-" + y)
    ensures ',' !in x + "-" + y && SplitOnce(x + "-" + y, '-') == Some((x, y))
  {
    StripPrefixed("bytes=", x + "-" + y);
    SplitOnceAt('-', x, y);
  }

  /** On every text it takes for a range, the parser computes that range's first and last position. */
  lemma TakenRange(value: string, total: nat, spec: RangeSpec)
    requires TakenFor(value, spec)
    ensures match ParseRange(value, total)
            case Some((s, e)) => s <= e < total && forall i: nat :: s <= i <= e <==> Selects(spec, i, total)
            case None => forall i: nat :: !Selects(spec, i, total)
  {
    hide ParseU64, StripPrefix, SplitOnce;
    match spec
    case Span(first, last) =>
      var x, y :| SpanText(value, x, y) && ParseU64(x) == Some(first) && ParseU64(y) == Some(last);
      NumeralsArePlain(x);
      NumeralsArePlain(y);
      SpanTextParts(value, x, y);
    case From(first) =>
      var x :| SpanText(value, x, "") && ParseU64(x) == Some(first);
      NumeralsArePlain(x);
      SpanTextParts(value, x, "");
    case Suffix(length) =>
      var y :| SpanText(value, "", y) && ParseU64(y) == Some(length);
      NumeralsArePlain(y);
      SpanTextParts(value, "", y);
  }

  /**
   The parser is exact about its own reading: it answers with the positions of the range it takes the
   header for, and answers nothing exactly when it takes it for none or the range selects no position.
   */
  lemma ParseRangeIsExact(value: string, total: nat)
    ensures match ParseRange(value, total)
            case Some((s, e)) =>
              && s <= e < total
              && exists spec :: TakenFor(value, spec) && forall i: nat :: s <= i <= e <==> Selects(spec, i, total)
            case None => forall spec, i: nat :: TakenFor(value, spec) ==> !Selects(spec, i, total)
  {
    match ParseRange(value, total)
    case None =>
      forall spec, i: nat | TakenFor(value, spec)
        ensures !Selects(spec, i, total)
      {
        TakenRange(value, total, spec);
      }
    case Some((s, e)) =>
      var (x, y) := SplitOnce(StripPrefix(value, "bytes=").value, '-').value;
      assert SpanText(value, x, y);
      var spec :=
        if x == "" then Suffix(ParseU64(y).value)
        else if y == "" then From(ParseU64(x).value)
        else Span(ParseU64(x).value, ParseU64(y).value);
      assert TakenFor(value, spec);
      TakenRange(value, total, spec);
  }

  // ---- Against section 2.1 of RFC 7233 ----

  /** A position or length of RFC 7233: one or more digits, of any size. */
  predicate Numeral(x: string) {
    x != "" && forall c :: c in x ==> IsDigit(c)
  }

  /** The range a header value names in that section, its unit read without regard to case. */
  ghost predicate Denotes(value: string, spec: RangeSpec) {
    Names(UnitFolded(value), spec)
  }

  /** The unit is a literal of the grammar, and such literals match in any case. */
  function UnitFolded(value: string): string {
    if |value| >= 6 && Lower(value[..6]) == "bytes=" then "bytes=" + value[6..] else value
  }

  ghost predicate Names(value: string, spec: RangeSpec) {
    match spec
    case Span(first, last) =>
      exists x, y :: SpanText(value, x, y) && Numeral(x) && Numeral(y) && DecimalValue(x) == first && DecimalValue(y) == last
    case From(first) => exists x :: SpanText(value, x, "") && Numeral(x) && DecimalValue(x) == first
    case Suffix(length) => exists y :: SpanText(value, "", y) && Numeral(y) && DecimalValue(y) == length
  }

  /** The parser's answer selects what the header selects. */
  ghost predicate Agrees(value: string, total: nat) {
    match ParseRange(value, total)
    case Some((s, e)) =>
      && s <= e < total
      && exists spec :: Denotes(value, spec) && forall i: nat :: s <= i <= e <==> Selects(spec, i, total)
    case None => forall spec, i: nat :: Denotes(value, spec) ==> !Selects(spec, i, total)
  }

  /** Some position of the range does not fit into 64 bits. */
  predicate Oversized(spec: RangeSpec) {
    match spec
    case Span(first, last) => first >= U64_END || last >= U64_END
    case From(first) => first >= U64_END
    case Suffix(length) => length >= U64_END
  }

  predicate Satisfiable(spec: RangeSpec, total: nat) {
    match spec
    case Span(first, last) => first <= last && first < total
    case From(first) => first < total
    case Suffix(length) => length > 0 && total > 0
  }

  lemma SatisfiableSelects(spec: RangeSpec, total: nat)
    ensures Satisfiable(spec, total) <==> exists i: nat :: Selects(spec, i, total)
  {
    if Satisfiable(spec, total) {
      match spec
      case Span(first, _) => assert Selects(spec, first, total);
      case From(first) => assert Selects(spec, first, total);
      case Suffix(_) => assert Selects(spec, total - 1, total);
    }
  }

  lemma NumeralsAreTaken(x: string)
    requires '+' !in x
    ensures ParseU64(x) == if Numeral(x) && DecimalValue(x) < 18446744073709551616 then Some(DecimalValue(x)) else None
  {
  }

  /** Without a plus sign, the parser takes a text for a range exactly when it names that range and fits into 64 bits. */
  lemma TakenIsNamed(value: string, spec: RangeSpec)
    requires '+' !in value
    ensures TakenFor(value, spec) <==> Names(value, spec) && !Oversized(spec)
  {
  }

  lemma NamesNoPlus(value: string, spec: RangeSpec)
    requires Names(value, spec)
    ensures '+' !in value
  {
  }

  lemma NamesOneRange(value: string, spec: RangeSpec, other: RangeSpec)
    requires Names(value, spec) && Names(value, other)
    ensures spec == other
  {
    hide DecimalValue;
    var x, y := TextParts(value, spec);
    var x', y' := TextParts(value, other);
    assert value[6..] == x + "-" + y == x' + "-" + y';
    SplitIsUnique('-', x, y, x', y');
  }

  lemma TextParts(value: string, spec: RangeSpec) returns (x: string, y: string)
    requires Names(value, spec)
    ensures SpanText(value, x, y) && '-' !in x
    ensures match spec
            case Span(first, last) =>
              && Numeral(x) && DecimalValue(x) == first && Numeral(y) && DecimalValue(y) == last
            case From(first) => Numeral(x) && DecimalValue(x) == first && y == ""
            case Suffix(length) => x == "" && Numeral(y) && DecimalValue(y) == length
  {
    hide DecimalValue;
    match spec
    case Span(first, last) =>
      x, y :| SpanText(value, x, y) && Numeral(x) && Numeral(y) && DecimalValue(x) == first && DecimalValue(y) == last;
    case From(first) =>
      x :| SpanText(value, x, "") && Numeral(x) && DecimalValue(x) == first;
      y := "";
    case Suffix(length) =>
      y :| SpanText(value, "", y) && Numeral(y) && DecimalValue(y) == length;
      x := "";
  }

  lemma FoldedUnit(value: string)
    ensures '+' in UnitFolded(value) <==> '+' in value
    ensures StripPrefix(value, "bytes=").Some? ==> UnitFolded(value) == value
  {
  }

  /** The parser knows the unit in lower case only. */
  lemma OtherUnits(value: string, total: nat)
    ensures UnitFolded(value) != value ==> ParseRange(value, total).None?
  {
  }

  /**
   When the parser agrees with the standard: unless the text reads as a satisfiable range only by skipping
   a plus sign, or names one that has a position of 2^64 or more or writes its unit in another case.
   */
  lemma AgreesWithStandard(value: string, total: nat)
    ensures Agrees(value, total) <==>
      && !(exists spec :: '+' in value && TakenFor(value, spec) && Satisfiable(spec, total))
      && !(exists spec :: Denotes(value, spec) && Satisfiable(spec, total) && (Oversized(spec) || UnitFolded(value) != value))
  {
    hide ParseRange, Names, TakenFor, UnitFolded, Selects, Satisfiable, Oversized, Denotes;
    ParseRangeIsExact(value, total);
    OtherUnits(value, total);
    var answer := ParseRange(value, total);
    if spec :| '+' in value && TakenFor(value, spec) && Satisfiable(spec, total) {
      SatisfiableSelects(spec, total);
      NoPlusDenoted(value);
    } else if spec :| Denotes(value, spec) && Satisfiable(spec, total) && (Oversized(spec) || UnitFolded(value) != value) {
      SatisfiableSelects(spec, total);
      if answer.Some? {
        var taken :| TakenFor(value, taken) && forall i: nat :: answer.value.0 <= i <= answer.value.1 <==> Selects(taken, i, total);
        ReadingsCompared(value, spec);
        ReadingsCompared(value, taken);
        DenotesOneRange(value, spec, taken);
      }
    } else {
      NeitherFails(value, total);
    }
  }

  lemma NoPlusDenoted(value: string)
    requires '+' in value
    ensures forall spec :: !Denotes(value, spec)
  {
    hide Denotes, TakenFor, Oversized, UnitFolded;
    forall spec
      ensures !Denotes(value, spec)
    {
      ReadingsCompared(value, spec);
    }
  }

  lemma NeitherFails(value: string, total: nat)
    requires !exists spec :: '+' in value && TakenFor(value, spec) && Satisfiable(spec, total)
    requires !exists spec :: Denotes(value, spec) && Satisfiable(spec, total) && (Oversized(spec) || UnitFolded(value) != value)
    ensures Agrees(value, total)
  {
    hide ParseRange, Names, TakenFor, UnitFolded, Selects, Satisfiable, Oversized, Denotes;
    ParseRangeIsExact(value, total);
    OtherUnits(value, total);
    match ParseRange(value, total)
    case Some((s, e)) =>
      var taken :| TakenFor(value, taken) && forall i: nat :: s <= i <= e <==> Selects(taken, i, total);
      assert Selects(taken, s, total);
      SatisfiableSelects(taken, total);
      ReadingsCompared(value, taken);
    case None =>
      forall spec, i: nat | Denotes(value, spec)
        ensures !Selects(spec, i, total)
      {
        SatisfiableSelects(spec, total);
        ReadingsCompared(value, spec);
      }
  }

  lemma ReadingsCompared(value: string, spec: RangeSpec)
    ensures '+' in value ==> !Denotes(value, spec)
    ensures '+' !in value && UnitFolded(value) == value ==> (TakenFor(value, spec) <==> Denotes(value, spec) && !Oversized(spec))
  {
    hide Names, TakenFor, UnitFolded, Oversized;
    FoldedUnit(value);
    if '+' !in value {
      TakenIsNamed(value, spec);
    } else if Denotes(value, spec) {
      NamesNoPlus(UnitFolded(value), spec);
    }
  }

  lemma DenotesOneRange(value: string, spec: RangeSpec, other: RangeSpec)
    requires Denotes(value, spec) && Denotes(value, other)
    ensures spec == other
  {
    NamesOneRange(UnitFolded(value), spec, other);
  }

  lemma ParsedParts(x: string, y: string, total: nat)
    requires '-' !in x && ',' !in x && ',' !in y
    ensures var value := "bytes=" + (x + "-" + y);
            && ParseRange(value, total) == Bounds(x, y, total)
            && LooksLikeByteRange(value) && UnitFolded(value) == value
  {
    hide Bounds, UnitFolded;
    SpanTextParts("bytes=" + (x + "-" + y), x, y);
    FoldedUnit("bytes=" + (x + "-" + y));
  }

  lemma NumeralHasDigitsOnly(x: string)
    requires Numeral(x)
    ensures '-' !in x && ',' !in x && '+' !in x
  {
  }

  /** The first failing family: an end position of 2^64 or more asks for all the rest, and is refused as unsatisfiable. */
  lemma OversizedPositions(x: string, y: string, total: nat)
    requires Numeral(x) && Numeral(y) && DecimalValue(x) < total && DecimalValue(x) < U64_END <= DecimalValue(y)
    ensures var value := "bytes=" + (x + "-" + y);
            && Denotes(value, Span(DecimalValue(x), DecimalValue(y)))
            && Selects(Span(DecimalValue(x), DecimalValue(y)), DecimalValue(x), total)
            && ParseRange(value, total).None? && LooksLikeByteRange(value)
  {
    hide DecimalValue, ParseRange, LooksLikeByteRange, UnitFolded, ParseU64;
    NumeralHasDigitsOnly(x);
    NumeralHasDigitsOnly(y);
    ParsedParts(x, y, total);
    NumeralsAreTaken(x);
    NumeralsAreTaken(y);
    assert SpanText("bytes=" + (x + "-" + y), x, y);
  }

  /** The second: so is a suffix length of 2^64 or more, which asks for everything. */
  lemma OversizedSuffixes(y: string, total: nat)
    requires Numeral(y) && DecimalValue(y) >= U64_END && total > 0
    ensures var value := "bytes=" + ("" + "-" + y);
            && Denotes(value, Suffix(DecimalValue(y))) && Selects(Suffix(DecimalValue(y)), total - 1, total)
            && ParseRange(value, total).None? && LooksLikeByteRange(value)
  {
    hide DecimalValue, ParseRange, LooksLikeByteRange, UnitFolded, ParseU64;
    NumeralHasDigitsOnly(y);
    ParsedParts("", y, total);
    NumeralsAreTaken(y);
    assert SpanText("bytes=" + ("" + "-" + y), "", y);
  }

  /** The third: a plus sign before a position is no numeral of the standard, and is skipped. */
  lemma PlusSignsAreSkipped(x: string, y: string, total: nat)
    requires Numeral(x) && Numeral(y)
    ensures var value := "bytes=" + (("+" + x) + "-" + ("+" + y));
            && ParseRange(value, total) == ParseRange("bytes=" + (x + "-" + y), total)
            && forall spec :: !Denotes(value, spec)
  {
    hide DecimalValue, ParseRange, LooksLikeByteRange, UnitFolded, ParseU64, Names;
    NumeralHasDigitsOnly(x);
    NumeralHasDigitsOnly(y);
    ParsedParts("+" + x, "+" + y, total);
    ParsedParts(x, y, total);
    PlusIsSkipped(x);
    PlusIsSkipped(y);
    var value := "bytes=" + (("+" + x) + "-" + ("+" + y));
    assert value[6] == '+';
    forall spec
      ensures !Denotes(value, spec)
    {
      if Names(value, spec) {
        NamesNoPlus(value, spec);
      }
    }
  }

  lemma PlusIsSkipped(x: string)
    requires Numeral(x)
    ensures ParseU64("+" + x) == ParseU64(x)
  {
    assert ("+" + x)[1..] == x;
    assert x[0] in x;
  }

  // ---- Serving ----

  type RangeAnswer = Result<Option<(Bytes, string, nat)>>

  /** `get_file_range_if_plain`. */
  function RangeIfPlain(s: State, id: FileId, start: nat, end: nat): (State, RangeAnswer) {
    var (s1, meta) := LoadMeta(s, id);
    match meta
    case Err(e) => (s1, Err(e))
    case Ok(row) =>
      if row.encoding.isCompressed || row.encoding.isEncrypted then (s1, Ok(None))
      else
        var total := row.fileSize;
        var last := Min(end, if total == 0 then 0 else total - 1);
        if total == 0 || start > last then (s1, Ok(None))
        else if row.path !in s1.disk || last + 1 > |s1.disk[row.path]| then (s1, Err(Io))
        else (s1.(rows := UpdateAccess(s1.rows, row.uuid)),
              Ok(Some((s1.disk[row.path][start..last + 1], row.contentType, total))))
  }

  /** `get_compressed_file_range`. */
  function CompressedRange(w: World, s: State, id: FileId, start: nat, end: nat): (State, RangeAnswer) {
    var (s1, meta) := LoadMeta(s, id);
    match meta
    case Err(e) => (s1, Err(e))
    case Ok(row) =>
      if row.encoding.isEncrypted || !row.encoding.isCompressed then (s1, Ok(None))
      else
        var total := row.originalSize;
        var last := Min(end, if total == 0 then 0 else total - 1);
        if total == 0 || start > last then (s1, Ok(None))
        else if row.path !in s1.disk then (s1, Err(Io))
        else match Streaming.DecompressRange(w.p, s1.disk[row.path], start, last - start + 1)
          case Err(e) => (s1, Err(e))
          case Ok(None) => (s1, Ok(None))
          case Ok(Some(bytes)) =>
            (s1.(rows := UpdateAccess(s1.rows, row.uuid)), Ok(Some((bytes, row.contentType, total))))
  }

  datatype Response =
    | Full(body: Bytes, contentType: string)
    | Partial(body: Bytes, first: nat, last: nat, total: nat, contentType: string)
    | NotSatisfiable(total: nat)
    | Failed(error: Error)

  /** What the cache drops while one download is served: before each of its three attempts, and within the last. */
  datatype Drops = Drops(
    beforeSeek: set<string>,
    beforeStream: set<string>,
    beforeDecode: set<string>,
    duringDecode: set<string>)

  /** The fallback: decode everything, then slice. */
  function ServeWhole(w: World, s: State, id: FileId, range: Option<string>, now: int, drops: Drops): (State, Response) {
    var (s1, r) := GetFile(w, Forget(s, drops.beforeDecode), id, now, drops.duringDecode);
    match r
    case Err(e) => (s1, Failed(e))
    case Ok((content, contentType)) =>
      match (if range.Some? then ParseRange(range.value, |content|) else None)
      case Some((a, b)) =>
        ParseRangeIsExact(range.value, |content|);
        (s1, Partial(content[a..b + 1], a, b, |content|, contentType))
      case None => (s1, Full(content, contentType))
  }

  /** `handle_file_request` for a download. */
  function HandleGet(w: World, s: State, id: FileId, range: Option<string>, now: int, drops: Drops): (State, Response) {
    if range.None? then ServeWhole(w, s, id, range, now, drops)
    else
      var (s1, info) := GetFileInfo(s, id, now);
      if info.Err? then ServeWhole(w, s1, id, range, now, drops)
      else match ParseRange(range.value, info.value.originalSize)
        case None =>
          if LooksLikeByteRange(range.value) then (s1, NotSatisfiable(info.value.originalSize))
          else ServeWhole(w, s1, id, range, now, drops)
        case Some((a, b)) =>
          ServeRange(w, s1, id, range, a, b, now, drops)
  }

  /** The two fast paths in turn, then the fallback. */
  function ServeRange(w: World, s: State, id: FileId, range: Option<string>, a: nat, b: nat, now: int, drops: Drops)
    : (State, Response)
  {
    var (s1, plain) := RangeIfPlain(Forget(s, drops.beforeSeek), id, a, b);
    if plain.Ok? && plain.value.Some? then
      var (body, contentType, total) := plain.value.value;
      (s1, Partial(body, a, b, total, contentType))
    else
      var (s2, streamed) := CompressedRange(w, Forget(s1, drops.beforeStream), id, a, b);
      if streamed.Ok? && streamed.value.Some? then
        var (body, contentType, total) := streamed.value.value;
        (s2, Partial(body, a, b, total, contentType))
      else ServeWhole(w, s2, id, range, now, drops)
  }

  /** The reference answer: what a client should see of a file with this content. */
  function Answer(content: Bytes, contentType: string, range: Option<string>): Response {
    if range.None? then Full(content, contentType)
    else match ParseRange(range.value, |content|)
      case Some((a, b)) =>
        ParseRangeIsExact(range.value, |content|);
        Partial(content[a..b + 1], a, b, |content|, contentType)
      case None =>
        if LooksLikeByteRange(range.value) then NotSatisfiable(|content|) else Full(content, contentType)
  }

  /** A range that the parser takes the header for, and that selects a position of the content. */
  ghost predicate AsksFor(value: string, spec: RangeSpec, total: nat) {
    TakenFor(value, spec) && exists i: nat :: Selects(spec, i, total)
  }

  /** The reference answer to a header that asks for a range: exactly the positions selected, and the true length. */
  lemma PartialAnswer(content: Bytes, contentType: string, value: string, spec: RangeSpec)
    requires AsksFor(value, spec, |content|)
    ensures var r := Answer(content, contentType, Some(value));
            && r.Partial? && r.total == |content| && r.contentType == contentType
            && r.first <= r.last < |content| && r.body == content[r.first..r.last + 1]
            && forall i: nat :: r.first <= i <= r.last <==> Selects(spec, i, |content|)
  {
    hide ParseRange, TakenFor, Selects;
    var i: nat :| Selects(spec, i, |content|);
    TakenRange(value, |content|, spec);
    ParseRangeIsExact(value, |content|);
  }

  /**
   The reference answer to every other header: without the unit, or with a list of ranges after it, the
   whole content; with the unit and no comma, not satisfiable.
   */
  lemma OtherAnswers(content: Bytes, contentType: string, value: string)
    requires forall spec :: !AsksFor(value, spec, |content|)
    ensures Answer(content, contentType, Some(value)) ==
      if (exists spec :: value == "bytes=" + spec && ',' !in spec) then NotSatisfiable(|content|) else Full(content, contentType)
    ensures Answer(content, contentType, None) == Full(content, contentType)
  {
    hide ParseRange, AsksFor, LooksLikeByteRange;
    SomethingIsAskedFor(value, |content|);
    UnitAndNoComma(value);
  }

  lemma SomethingIsAskedFor(value: string, total: nat)
    ensures ParseRange(value, total).Some? ==> exists spec :: AsksFor(value, spec, total)
  {
    hide ParseRange, TakenFor, Selects;
    ParseRangeIsExact(value, total);
    if ParseRange(value, total).Some? {
      var (a, b) := ParseRange(value, total).value;
      var spec :| TakenFor(value, spec) && forall i: nat :: a <= i <= b <==> Selects(spec, i, total);
      assert Selects(spec, a, total);
      assert AsksFor(value, spec, total);
    }
  }

  lemma UnitAndNoComma(value: string)
    ensures LooksLikeByteRange(value) <==> exists spec :: value == "bytes=" + spec && ',' !in spec
  {
    if spec :| value == "bytes=" + spec && ',' !in spec {
      StripPrefixed("bytes=", spec);
    }
    if LooksLikeByteRange(value) {
      var spec := StripPrefix(value, "bytes=").value;
      assert value == "bytes=" + spec && ',' !in spec;
    }
  }

  /** A list of ranges is never a range, so the whole content is the answer to it. */
  lemma ListsGetEverything(content: Bytes, contentType: string, list: string)
    requires ',' in list
    ensures Answer(content, contentType, Some("bytes=" + list)) == Full(content, contentType)
  {
    StripPrefixed("bytes=", list);
  }

  /** A step that at most warms the cache and counts an access. */
  ghost predicate Quiet(s: State, s': State) {
    && s'.disk == s.disk && s'.keys == s.keys && s'.buckets == s.buckets && s'.rows.Keys == s.rows.Keys
    && (forall id :: id in s.rows ==> SameFile(s'.rows[id], s.rows[id]))
    && Coherent(s')
  }

  lemma QuietKeepsContent(w: World, s: State, s': State, id: FileId)
    requires Quiet(s, s') && id in s.rows && RowIntact(w, s.keys, s.disk, s.rows[id])
    ensures RowIntact(w, s'.keys, s'.disk, s'.rows[id]) && ContentOf(w, s', id) == ContentOf(w, s, id)
    ensures s'.rows[id].contentType == s.rows[id].contentType && s'.rows[id].encoding == s.rows[id].encoding
    ensures s'.rows[id].expiresAt == s.rows[id].expiresAt && s'.rows[id].path == s.rows[id].path
  {
  }

  lemma CountingIsQuiet(s: State, s1: State, uuid: nat)
    requires Quiet(s, s1)
    ensures Quiet(s, s1.(rows := UpdateAccess(s1.rows, uuid)))
  {
  }

  lemma ForgettingIsQuiet(s: State, s1: State, keys: set<string>)
    requires Coherent(s1) && (s1 == s || Quiet(s, s1))
    ensures Quiet(s, Forget(s1, keys))
  {
  }

  /** What either fast path does beside answering: the row's metadata is cached, and a range served is counted on the row it names. */
  predicate Counts(s: State, s': State, id: FileId, served: bool)
    requires id in s.rows
  {
    var row := if CachedMeta(s.cache, id).Some? then CachedMeta(s.cache, id).value else s.rows[id];
    && s' == s.(cache := s'.cache, rows := s'.rows)
    && CachedMeta(s'.cache, id) == Some(row) && CachedContent(s'.cache, id) == CachedContent(s.cache, id)
    && s'.rows.Keys == s.rows.Keys
    && forall i :: i in s.rows ==>
         s'.rows[i] == if served && s.rows[i].uuid == row.uuid then s.rows[i].(accessCount := s.rows[i].accessCount + 1) else s.rows[i]
  }

  lemma RangesAreCounted(w: World, s: State, id: FileId, a: nat, b: nat)
    requires ColonFree(id) && id in s.rows
    ensures var (s', r) := RangeIfPlain(s, id, a, b); Counts(s, s', id, r.Ok? && r.value.Some?)
    ensures var (s', r) := CompressedRange(w, s, id, a, b); Counts(s, s', id, r.Ok? && r.value.Some?)
  {
    hide CachedMeta, CachedContent, PutMeta, Streaming.DecompressRange;
    PutMetaView(s.cache, id, s.rows[id], id);
  }

  /**
   What the fast paths answer when they do not serve: a file of the other kind, or a range past its end,
   is left to the full decode; a missing row is not found, missing or missing-end bytes are an error.
   */
  lemma FastPathsDecline(w: World, s: State, id: FileId, a: nat, b: nat)
    requires CachedMeta(s.cache, id).None?
    ensures id !in s.rows ==> RangeIfPlain(s, id, a, b) == (s, Err(NotFound)) == CompressedRange(w, s, id, a, b)
    ensures id in s.rows ==>
      var row := s.rows[id];
      var plain, streamed := RangeIfPlain(s, id, a, b).1, CompressedRange(w, s, id, a, b).1;
      && (row.encoding.isCompressed || row.encoding.isEncrypted || a > b || a >= row.fileSize ==> plain == Ok(None))
      && (!row.encoding.isCompressed || row.encoding.isEncrypted || a > b || a >= row.originalSize ==> streamed == Ok(None))
      && (!row.encoding.isCompressed && !row.encoding.isEncrypted && a <= b && a < row.fileSize ==>
            (plain == Err(Io) <==> row.path !in s.disk || |s.disk[row.path]| < Min(b + 1, row.fileSize)))
      && (row.encoding.isCompressed && !row.encoding.isEncrypted && a <= b && a < row.originalSize ==>
            (streamed == Err(Io) <==> row.path !in s.disk))
  {
    hide PutMeta, CachedMeta, UpdateAccess;
    if id in s.rows && s.rows[id].path in s.disk {
      OnlyCompressionFails(w.p, s.disk[s.rows[id].path], a, b);
    }
  }

  lemma OnlyCompressionFails(p: Primitives, data: Bytes, a: nat, b: nat)
    ensures forall n: nat :: Streaming.DecompressRange(p, data, a, n) != Err(Io)
  {
  }

  /** The direct seek answers for plain rows only, with exactly the requested slice of the content. */
  lemma PlainRange(w: World, s: State, id: FileId, a: nat, b: nat)
    requires Coherent(s) && ColonFree(id) && id in s.rows && RowIntact(w, s.keys, s.disk, s.rows[id])
    requires a <= b < |ContentOf(w, s, id)|
    ensures var (s', r) := RangeIfPlain(s, id, a, b);
            && Quiet(s, s')
            && var e := s.rows[id].encoding;
               var content := ContentOf(w, s, id);
               r == if e.isCompressed || e.isEncrypted then Ok(None)
                    else Ok(Some((content[a..b + 1], s.rows[id].contentType, |content|)))
  {
    LoadMetaFacts(s, id);
    var (s1, meta) := LoadMeta(s, id);
    SameFileFields(meta.value, s.rows[id]);
    assert Quiet(s, s1);
    CountingIsQuiet(s, s1, meta.value.uuid);
  }

  /** The streamed branch answers for compressed, unencrypted rows, with exactly the requested slice of the content. */
  lemma StreamedRange(w: World, s: State, id: FileId, a: nat, b: nat)
    requires Coherent(s) && ColonFree(id) && id in s.rows && RowIntact(w, s.keys, s.disk, s.rows[id])
    requires a <= b < |ContentOf(w, s, id)|
    ensures var (s', r) := CompressedRange(w, s, id, a, b);
            && Quiet(s, s')
            && var e := s.rows[id].encoding;
               var content := ContentOf(w, s, id);
               r == if e.isEncrypted || !e.isCompressed || TaggedStream(w.p, s.disk[s.rows[id].path]).None? then Ok(None)
                    else Ok(Some((content[a..b + 1], s.rows[id].contentType, |content|)))
  {
    hide Decompress, TaggedStream, Streaming.DecompressRange, UpdateAccess;
    LoadMetaFacts(s, id);
    var (s1, meta) := LoadMeta(s, id);
    SameFileFields(meta.value, s.rows[id]);
    assert Quiet(s, s1);
    CountingIsQuiet(s, s1, meta.value.uuid);
    var e := s.rows[id].encoding;
    if !e.isEncrypted && e.isCompressed {
      StreamedSlice(w, s, id, a, b);
    }
  }

  lemma StreamedSlice(w: World, s: State, id: FileId, a: nat, b: nat)
    requires id in s.rows && RowIntact(w, s.keys, s.disk, s.rows[id])
    requires a <= b < |ContentOf(w, s, id)|
    requires s.rows[id].encoding.isCompressed && !s.rows[id].encoding.isEncrypted
    ensures var data := s.disk[s.rows[id].path];
            && data != []
            && Streaming.DecompressRange(w.p, data, a, b - a + 1)
                 == Ok(if TaggedStream(w.p, data).None? then None else Some(ContentOf(w, s, id)[a..b + 1]))
  {
  }

  // ---- When a download is right ----

  /** The streamed branch can serve this row: it skips the settings and keys the full decode needs. */
  predicate Streams(w: World, s: State, id: FileId)
    requires id in s.rows && RowIntact(w, s.keys, s.disk, s.rows[id])
  {
    var e, data := s.rows[id].encoding, s.disk[s.rows[id].path];
    e.isCompressed && !e.isEncrypted && data != [] && TaggedStream(w.p, data).Some?
  }

  /** Asking for this range of this file needs no decoding that is switched off. */
  predicate Servable(w: World, s: State, id: FileId, range: Option<string>)
    requires id in s.rows && RowIntact(w, s.keys, s.disk, s.rows[id])
  {
    || Readable(w.cfg.settings, s.keys, s.rows[id].encoding)
    || (range.Some? &&
        if ParseRange(range.value, |ContentOf(w, s, id)|).Some? then Streams(w, s, id) else LooksLikeByteRange(range.value))
  }

  /** With its key inactive a row does not decode; with decompression off, it decodes to something shorter. */
  lemma UnreadableDecode(w: World, s: State, id: FileId)
    requires id in s.rows && RowIntact(w, s.keys, s.disk, s.rows[id])
    ensures var row := s.rows[id];
            var r := Decode(w.p, w.cfg.settings, s.keys, row.encoding, s.disk[row.path]);
            if Readable(w.cfg.settings, s.keys, row.encoding) then r == Ok(ContentOf(w, s, id))
            else r.Ok? ==> |r.value| < |ContentOf(w, s, id)|
  {
  }

  /** The full decode of an unexpired row gives the reference answer exactly when the row is readable. */
  lemma WholeAnswer(w: World, s: State, id: FileId, range: Option<string>, now: int, drops: Drops)
    requires Coherent(s) && ColonFree(id) && id in s.rows && RowIntact(w, s.keys, s.disk, s.rows[id])
    requires !ExpiredAt(s.rows[id], now)
    ensures var (s', r) := ServeWhole(w, s, id, range, now, drops);
            && Quiet(s, s')
            && var reference := Answer(ContentOf(w, s, id), s.rows[id].contentType, range);
               if Readable(w.cfg.settings, s.keys, s.rows[id].encoding) then reference.NotSatisfiable? || r == reference
               else r != reference
  {
    hide GetFile, Decode, Restore, Unsealed, ParseRange, Readable, ContentOf;
    UnreadableDecode(w, s, id);
    var content := ContentOf(w, s, id);
    if range.Some? {
      ParseRangeIsExact(range.value, |content|);
    }
    ForgettingIsQuiet(s, s, drops.beforeDecode);
    var s0 := Forget(s, drops.beforeDecode);
    CacheIsTransparent(w, s0, id, now, drops.duringDecode);
    var decoded := GetFile(w, s0, id, now, drops.duringDecode).1;
    if decoded.Ok? && range.Some? {
      ParseRangeIsExact(range.value, |decoded.value.0|);
    }
  }

  /**
   All range branches agree, exactly when. For every file, every header and every cache content, and
   whatever the cache drops on the way, the client sees the reference answer, that is the same bytes, the
   same bounds and the true decoded length, whichever of the three branches served it, if and only if what
   was asked for is servable.
   */
  lemma AllBranchesAgree(w: World, s: State, id: FileId, range: Option<string>, now: int, drops: Drops)
    requires Coherent(s) && ColonFree(id) && id in s.rows && RowIntact(w, s.keys, s.disk, s.rows[id])
    requires !ExpiredAt(s.rows[id], now)
    ensures var (s', r) := HandleGet(w, s, id, range, now, drops);
            && Quiet(s, s')
            && (r == Answer(ContentOf(w, s, id), s.rows[id].contentType, range) <==> Servable(w, s, id, range))
  {
    hide ServeRange, ServeWhole, Restore, Unsealed, Coherent, Readable, Streams;
    WholeAnswer(w, s, id, range, now, drops);
    var total := |ContentOf(w, s, id)|;
    if range.Some? && ParseRange(range.value, total).Some? {
      var (a, b) := ParseRange(range.value, total).value;
      ParseRangeIsExact(range.value, total);
      RangeBranchesAgree(w, s, id, range, a, b, now, drops);
    }
  }

  lemma RangeBranchesAgree(w: World, s: State, id: FileId, range: Option<string>, a: nat, b: nat, now: int, drops: Drops)
    requires Coherent(s) && ColonFree(id) && id in s.rows && RowIntact(w, s.keys, s.disk, s.rows[id])
    requires !ExpiredAt(s.rows[id], now)
    requires a <= b < |ContentOf(w, s, id)|
    requires range.Some? && ParseRange(range.value, |ContentOf(w, s, id)|) == Some((a, b))
    ensures var (s', r) := ServeRange(w, s, id, range, a, b, now, drops);
            var content := ContentOf(w, s, id);
            && Quiet(s, s')
            && (r == Partial(content[a..b + 1], a, b, |content|, s.rows[id].contentType)
                <==> Readable(w.cfg.settings, s.keys, s.rows[id].encoding) || Streams(w, s, id))
  {
    hide ServeWhole, RangeIfPlain, CompressedRange, Restore, Unsealed, Coherent, ParseRange, Readable, RowIntact, SameFile;
    var s0 := Forget(s, drops.beforeSeek);
    ForgettingIsQuiet(s, s, drops.beforeSeek);
    QuietKeepsContent(w, s, s0, id);
    PlainRange(w, s0, id, a, b);
    PlainIsReadable(w.cfg.settings, s.keys, s.rows[id].encoding);
    var (s1, plain) := RangeIfPlain(s0, id, a, b);
    QuietIsTransitive(s, s0, s1);
    if plain.value.None? {
      var s1' := Forget(s1, drops.beforeStream);
      ForgettingIsQuiet(s, s1, drops.beforeStream);
      QuietKeepsContent(w, s, s1', id);
      StreamedRange(w, s1', id, a, b);
      StoredBytesAreSome(w, s, id);
      var (s2, streamed) := CompressedRange(w, s1', id, a, b);
      QuietIsTransitive(s, s1', s2);
      if streamed.value.None? {
        QuietKeepsContent(w, s, s2, id);
        WholeAnswer(w, s2, id, range, now, drops);
        QuietIsTransitive(s, s2, ServeWhole(w, s2, id, range, now, drops).0);
      }
    }
  }

  lemma PlainIsReadable(cfg: Settings, keys: Keys, e: Encoding)
    ensures !e.isCompressed && !e.isEncrypted ==> Readable(cfg, keys, e)
  {
  }

  lemma StoredBytesAreSome(w: World, s: State, id: FileId)
    requires id in s.rows && RowIntact(w, s.keys, s.disk, s.rows[id]) && ContentOf(w, s, id) != []
    ensures !s.rows[id].encoding.isEncrypted ==> s.disk[s.rows[id].path] != []
  {
  }

  lemma QuietIsTransitive(s: State, s1: State, s2: State)
    requires Quiet(s, s1) && Quiet(s1, s2)
    ensures Quiet(s, s2)
  {
  }

  /** A missing or expired file is not found, with or without a range. */
  lemma GoneIsNotFound(w: World, s: State, id: FileId, range: Option<string>, now: int, drops: Drops)
    requires Coherent(s) && ColonFree(id)
    requires id !in s.rows || ExpiredAt(s.rows[id], now)
    ensures HandleGet(w, s, id, range, now, drops).1 == Failed(NotFound)
  {
  }

  /** Whatever fails, fails with the error of reading the file from rows and disk alone; without a header the read decides everything. */
  lemma FailuresAreTheReads(w: World, s: State, id: FileId, range: Option<string>, now: int, drops: Drops)
    requires Coherent(s) && ColonFree(id)
    ensures var r := HandleGet(w, s, id, range, now, drops).1;
            && (r.Failed? ==> Lookup(w, s, id, now) == Err(r.error))
            && (range.None? && Lookup(w, s, id, now).Ok? ==>
                  var (content, contentType) := Lookup(w, s, id, now).value; r == Full(content, contentType))
  {
    hide GetFile, Lookup, ParseRange, RangeIfPlain, CompressedRange, DeleteFile;
    if id !in s.rows || ExpiredAt(s.rows[id], now) {
      GoneIsNotFound(w, s, id, range, now, drops);
      GoneLookup(w, s, id, now);
    } else {
      QuietRead(w, s, s, id, range, now, drops);
      if range.Some? && ParseRange(range.value, s.rows[id].originalSize).Some? {
        var (a, b) := ParseRange(range.value, s.rows[id].originalSize).value;
        var s1 := RangeIfPlain(Forget(s, drops.beforeSeek), id, a, b).0;
        ForgettingIsQuiet(s, s, drops.beforeSeek);
        FastPathsAreQuiet(w, s, Forget(s, drops.beforeSeek), id, a, b);
        ForgettingIsQuiet(s, s1, drops.beforeStream);
        FastPathsAreQuiet(w, s, Forget(s1, drops.beforeStream), id, a, b);
        var s2 := CompressedRange(w, Forget(s1, drops.beforeStream), id, a, b).0;
        QuietRead(w, s, s2, id, range, now, drops);
      }
    }
  }

  lemma GoneLookup(w: World, s: State, id: FileId, now: int)
    requires id !in s.rows || ExpiredAt(s.rows[id], now)
    ensures Lookup(w, s, id, now) == Err(NotFound)
  {
  }

  lemma FastPathsAreQuiet(w: World, s: State, s1: State, id: FileId, a: nat, b: nat)
    requires Quiet(s, s1) && ColonFree(id) && id in s.rows
    ensures Quiet(s, RangeIfPlain(s1, id, a, b).0) && Quiet(s, CompressedRange(w, s1, id, a, b).0)
  {
    hide UpdateAccess, Streaming.DecompressRange;
    LoadMetaFacts(s1, id);
    var (s2, meta) := LoadMeta(s1, id);
    assert Quiet(s, s2);
    if meta.Ok? {
      CountingIsQuiet(s, s2, meta.value.uuid);
    }
  }

  /** After quiet steps the full decode fails as the file did before them. */
  lemma QuietRead(w: World, s: State, s1: State, id: FileId, range: Option<string>, now: int, drops: Drops)
    requires Coherent(s) && (s1 == s || Quiet(s, s1)) && ColonFree(id) && id in s.rows
    ensures var r := ServeWhole(w, s1, id, range, now, drops).1;
            && (r.Failed? ==> Lookup(w, s, id, now) == Err(r.error))
            && (range.None? && Lookup(w, s, id, now).Ok? ==>
                  var (content, contentType) := Lookup(w, s, id, now).value; r == Full(content, contentType))
  {
    hide GetFile, ParseRange, Decode;
    assert Coherent(s1);
    ForgettingIsQuiet(s, s1, drops.beforeDecode);
    var s0 := Forget(s1, drops.beforeDecode);
    CacheIsTransparent(w, s0, id, now, drops.duringDecode);
    SameFileFields(s0.rows[id], s.rows[id]);
    assert Lookup(w, s0, id, now) == Lookup(w, s, id, now);
  }
}
