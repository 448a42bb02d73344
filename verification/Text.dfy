/**
 Text as byte strings: each `char` stands for one byte. The standard-library string operations the
 source leans on, with the facts that make printers and parsers invert each other.
 */
module Text {
  import opened Base

  function StripPrefix(s: string, prefix: string): (r: Option<string>)
    ensures r.Some? ==> s == prefix + r.value
    ensures r.None? ==> !(prefix <= s)
  {
    if prefix <= s then Some(s[|prefix|..]) else None
  }

  lemma StripPrefixed(prefix: string, rest: string)
    ensures StripPrefix(prefix + rest, prefix) == Some(rest)
  {
  }

  /** Splitting at the first `c`. */
  function SplitOnce(s: string, c: char): (r: Option<(string, string)>)
    ensures r.None? <==> c !in s
    ensures r.Some? ==> c !in r.value.0 && s == r.value.0 + [c] + r.value.1
  {
    if s == "" then None
    else if s[0] == c then Some(("", s[1..]))
    else match SplitOnce(s[1..], c)
      case None => None
      case Some((a, b)) =>
        assert s == [s[0]] + s[1..];
        Some(([s[0]] + a, b))
  }

  /** There is only one way to split at a first separator. */
  lemma SplitIsUnique(c: char, a: string, b: string, a': string, b': string)
    requires c !in a && c !in a'
    requires a + [c] + b == a' + [c] + b'
    ensures a == a' && b == b'
  {
    var s := a + [c] + b;
    assert s == a' + [c] + b';
    assert s[|a|] == c && s[|a'|] == c;
    assert forall k :: 0 <= k < |a| ==> s[k] == a[k];
    assert forall k :: 0 <= k < |a'| ==> s[k] == a'[k];
    assert |a| == |a'|;
    assert s[..|a|] == a && s[..|a'|] == a';
    assert s[|a| + 1..] == b && s[|a'| + 1..] == b';
  }

  lemma SplitOnceAt(c: char, a: string, b: string)
    requires c !in a
    ensures SplitOnce(a + [c] + b, c) == Some((a, b))
  {
    var r := SplitOnce(a + [c] + b, c);
    assert (a + [c] + b)[|a|] == c;
    SplitIsUnique(c, a, b, r.value.0, r.value.1);
  }

  /** All pieces between separators; never empty. */
  function Split(s: string, c: char): (parts: seq<string>)
    ensures parts != []
    decreases |s|
  {
    match SplitOnce(s, c)
    case None => [s]
    case Some((a, b)) => [a] + Split(b, c)
  }

  function Join(parts: seq<string>, separator: string): string {
    if parts == [] then ""
    else if |parts| == 1 then parts[0]
    else parts[0] + separator + Join(parts[1..], separator)
  }

  lemma {:induction false} JoinAppend(a: seq<string>, b: seq<string>, separator: string)
    requires a != [] && b != []
    ensures Join(a + b, separator) == Join(a, separator) + separator + Join(b, separator)
  {
    if |a| == 1 {
      assert (a + b)[1..] == b;
    } else {
      JoinAppend(a[1..], b, separator);
      assert (a + b)[1..] == a[1..] + b;
    }
  }

  lemma {:induction false} SplitOfJoin(parts: seq<string>, c: char)
    requires parts != [] && forall p :: p in parts ==> c !in p
    ensures Split(Join(parts, [c]), c) == parts
  {
    if |parts| == 1 {
      assert parts == [parts[0]];
    } else {
      SplitOfJoin(parts[1..], c);
      SplitOnceAt(c, parts[0], Join(parts[1..], [c]));
      assert parts == [parts[0]] + parts[1..];
    }
  }

  lemma {:induction false} JoinOfSplit(s: string, c: char)
    ensures Join(Split(s, c), [c]) == s
    ensures forall p :: p in Split(s, c) ==> c !in p
    decreases |s|
  {
    match SplitOnce(s, c)
    case None =>
    case Some((a, b)) =>
      JoinOfSplit(b, c);
      assert Split(s, c)[1..] == Split(b, c);
  }

  lemma {:induction false} SplitAppend(a: string, c: char, b: string)
    ensures Split(a + [c] + b, c) == Split(a, c) + Split(b, c)
    decreases |a|
  {
    hide SplitOnce;
    match SplitOnce(a, c)
    case None =>
      SplitOnceAt(c, a, b);
    case Some((x, y)) =>
      assert a + [c] + b == x + [c] + (y + [c] + b);
      SplitOnceAt(c, x, y + [c] + b);
      SplitAppend(y, c, b);
  }

  /** Splitting at the last separator is unique too. */
  lemma SplitLastIsUnique(c: char, a: string, b: string, a': string, b': string)
    requires c !in b && c !in b'
    requires a + [c] + b == a' + [c] + b'
    ensures a == a' && b == b'
  {
    var s := a + [c] + b;
    assert s == a' + [c] + b';
    assert s[|a|] == c && s[|a'|] == c;
    assert forall k :: |a| < k < |s| ==> s[k] == b[k - |a| - 1];
    assert forall k :: |a'| < k < |s| ==> s[k] == b'[k - |a'| - 1];
    assert |a| == |a'|;
    assert s[..|a|] == a && s[..|a'|] == a';
    assert s[|a| + 1..] == b && s[|a'| + 1..] == b';
  }

  // ---- ASCII case ----

  function LowerChar(c: char): char {
    if 'A' <= c <= 'Z' then (c as int + 32) as char else c
  }

  function Lower(s: string): (r: string)
    ensures |r| == |s| && forall i :: 0 <= i < |s| ==> r[i] == LowerChar(s[i])
  {
    seq(|s|, i requires 0 <= i < |s| => LowerChar(s[i]))
  }

  /** The capital letters of ASCII, which are the bytes 65 to 90, move on by 32; nothing else changes. */
  lemma LowerIsAscii(c: char)
    ensures LowerChar(c) as int == c as int + if 65 <= c as int <= 90 then 32 else 0
  {
  }

  // ---- White space ----

  predicate IsSpace(c: char) {
    c == ' ' || '\t' <= c <= '\r'
  }

  function TrimStart(s: string): string {
    if s != "" && IsSpace(s[0]) then TrimStart(s[1..]) else s
  }

  function TrimEnd(s: string): string {
    if s != "" && IsSpace(s[|s| - 1]) then TrimEnd(s[..|s| - 1]) else s
  }

  function Trim(s: string): string {
    TrimEnd(TrimStart(s))
  }

  /** Trimming leaves a text alone that starts and ends with something else than white space. */
  lemma TrimOf(s: string)
    requires s != "" && !IsSpace(s[0]) && !IsSpace(s[|s| - 1])
    ensures Trim(s) == s && Trim(" " + s) == s
  {
  }

  /** White space is the space, the tab, and the four line and page separators between 10 and 13. */
  lemma SpaceCharacters(c: char)
    ensures IsSpace(c) <==> c as int in {32, 9, 10, 11, 12, 13}
  {
  }

  predicate Blank(s: string) {
    forall c :: c in s ==> IsSpace(c)
  }

  /** Trimming takes the white space off both ends, and nothing else. */
  lemma {:induction false} TrimIsExact(before: string, s: string, after: string)
    requires Blank(before) && Blank(after)
    requires s == "" || (!IsSpace(s[0]) && !IsSpace(s[|s| - 1]))
    ensures Trim(before + s + after) == s
    decreases |before| + |after|
  {
    if before != "" {
      assert before[0] in before;
      assert (before + s + after)[1..] == before[1..] + s + after;
      TrimIsExact(before[1..], s, after);
    } else if s == "" {
      assert before + s + after == after;
      BlankTrimsAway(after);
    } else {
      assert before + s + after == s + after;
      assert TrimStart(s + after) == s + after;
      EndTrims(s, after);
    }
  }

  lemma {:induction false} BlankTrimsAway(s: string)
    requires Blank(s)
    ensures TrimStart(s) == ""
  {
    if s != "" {
      assert s[0] in s;
      BlankTrimsAway(s[1..]);
    }
  }

  lemma {:induction false} EndTrims(s: string, after: string)
    requires s != "" && !IsSpace(s[|s| - 1]) && Blank(after)
    ensures TrimEnd(s + after) == s
    decreases after
  {
    if after == "" {
      assert s + after == s;
    } else {
      assert after[|after| - 1] in after;
      assert (s + after)[..|s + after| - 1] == s + after[..|after| - 1];
      EndTrims(s, after[..|after| - 1]);
    }
  }

  // ---- Unsigned decimal numbers ----

  predicate IsDigit(c: char) {
    '0' <= c <= '9'
  }

  function DecimalValue(digits: string): nat
    requires forall c :: c in digits ==> IsDigit(c)
  {
    if digits == "" then 0
    else
      var last := digits[|digits| - 1];
      assert IsDigit(last);
      DecimalValue(digits[..|digits| - 1]) * 10 + (last as int - '0' as int)
  }

  /** The ten digits, in base ten. */
  lemma DecimalDigits(digits: string, i: nat, c: char)
    requires i < 10 && forall c :: c in digits ==> IsDigit(c)
    ensures IsDigit(c) <==> c in "0123456789"
    ensures DecimalValue("") == 0 && DecimalValue(digits + ["0123456789"[i]]) == 10 * DecimalValue(digits) + i
  {
    var more := digits + ["0123456789"[i]];
    assert more[..|more| - 1] == digits;
    if IsDigit(c) {
      assert "0123456789"[c as int - '0' as int] == c;
    }
  }

  const U64_END: nat := 0x1_0000_0000_0000_0000

  /** `str::parse::<u64>`: an optional plus sign, at least one digit, no overflow. */
  function ParseU64(s: string): Option<nat> {
    var digits := if s != "" && s[0] == '+' then s[1..] else s;
    if digits != "" && (forall c :: c in digits ==> IsDigit(c)) && DecimalValue(digits) < U64_END
    then Some(DecimalValue(digits)) else None
  }
}
