/**
 The upload key's way through the `Content-Disposition` header: printed by the UI's client, extracted
 by the upload handler.
 */
module Disposition {
  import opened Base
  import opened Text
  import opened Percent

  /** `encodeURIComponent` also keeps these. */
  const COMPONENT_KEEPS := "!*'()"

  /** The header `uploadFile` builds. */
  function PrintHeader(key: string): string {
    "attachment; filename=\"" + Encode(key, COMPONENT_KEEPS) + "\""
  }

  /** Position of the first occurrence of a pattern, or None. */
  function FindText(s: string, pattern: string): (r: Option<nat>)
    ensures r.Some? ==> r.value <= |s| && pattern <= s[r.value..]
    ensures r.Some? ==> forall k :: 0 <= k < r.value ==> !(pattern <= s[k..])
    ensures r.None? ==> forall k :: 0 <= k <= |s| ==> !(pattern <= s[k..])
  {
    if pattern <= s then Some(0)
    else if s == "" then None
    else match FindText(s[1..], pattern)
      case None =>
        assert forall k :: 1 <= k <= |s| ==> s[k..] == s[1..][k - 1..];
        None
      case Some(i) =>
        assert forall k :: 1 <= k <= |s| ==> s[k..] == s[1..][k - 1..];
        Some(i + 1)
  }

  /** The piece between the first and the second occurrence of a non-empty pattern: `split(pattern)[1]`. */
  function AfterFirst(s: string, pattern: string): Option<string>
    requires pattern != ""
  {
    match FindText(s, pattern)
    case None => None
    case Some(i) =>
      var rest := s[i + |pattern|..];
      match FindText(rest, pattern)
      case None => Some(rest)
      case Some(j) => Some(rest[..j])
  }

  /** Up to the closing quote, or everything including the opening one when there is none. */
  function Unquote(part: string, quote: char): string
    requires part != "" && part[0] == quote
  {
    match SplitOnce(part[1..], quote)
    case None => part
    case Some((inside, _)) => inside
  }

  function BareName(part: string): string {
    if part != "" && part[0] == '\"' then Unquote(part, '\"')
    else if part != "" && part[0] == '\'' then Unquote(part, '\'')
    else match SplitOnce(part, ';')
      case None => part
      case Some((before, _)) => before
  }

  function DecodeUtf8(s: string): Option<string> {
    if Utf8(Decode(s)) then Some(Decode(s)) else None
  }

  /** `extract_filename_from_content_disposition` on the header's text. */
  function ExtractFilename(header: string): Option<string> {
    match AfterFirst(header, "filename=")
    case None => None
    case Some(part) =>
      var name := BareName(Trim(part));
      match StripPrefix(name, "UTF-8''")
      case Some(encoded) => DecodeUtf8(encoded)
      case None => Some(OrOriginal(DecodeUtf8(name), name))
  }

  function OrOriginal(o: Option<string>, original: string): string {
    match o case Some(s) => s case None => original
  }

  // ---- What other headers give ----

  /** The text has the pattern nowhere. */
  ghost predicate Lacks(s: string, pattern: string) {
    forall k :: 0 <= k <= |s| ==> !(pattern <= s[k..])
  }

  /** A header with a filename field whose value runs up to the next one, or to the end. */
  ghost predicate HasField(header: string, before: string, value: string) {
    && header == before + ("filename=" + value)
    && forall k :: 0 <= k < |before| ==> !("filename=" <= header[k..])
  }

  /** What a name stands for: an extended value decodes or is nothing, any other decodes or is itself. */
  function Meaning(name: string): Option<string> {
    if "UTF-8''" <= name then (if Utf8(Decode(name[7..])) then Some(Decode(name[7..])) else None)
    else Some(if Utf8(Decode(name)) then Decode(name) else name)
  }

  lemma NoFilename(header: string)
    requires Lacks(header, "filename=")
    ensures ExtractFilename(header) == None
  {
  }

  lemma FieldValue(header: string, before: string, value: string)
    requires HasField(header, before, value)
    ensures Lacks(value, "filename=") ==> AfterFirst(header, "filename=") == Some(value)
    ensures forall v, more :: HasField(value, v, more) ==> AfterFirst(header, "filename=") == Some(v)
  {
    hide FindText;
    FoundAt(header, before, value);
    if FindText(value, "filename=").Some? {
      assert !Lacks(value, "filename=");
    }
    forall v, more | HasField(value, v, more)
      ensures AfterFirst(header, "filename=") == Some(v)
    {
      FoundAt(value, v, more);
    }
  }

  lemma FoundAt(header: string, before: string, value: string)
    requires HasField(header, before, value)
    ensures FindText(header, "filename=") == Some(|before|) && header[|before| + 9..] == value && header[..|before|] == before
  {
    hide FindText;
    assert header[|before|..] == "filename=" + value;
    var found := FindText(header, "filename=");
    assert "filename=" <= header[|before|..];
  }

  lemma MeaningOfName(header: string, part: string, name: string)
    requires AfterFirst(header, "filename=") == Some(part) && BareName(Trim(part)) == name
    ensures ExtractFilename(header) == Meaning(name)
  {
    hide AfterFirst, BareName, Trim, Utf8, Percent.Decode;
  }

  /** An unquoted value ends at its first semicolon; white space around the whole value does not count. */
  lemma UnquotedValue(header: string, before: string, gap: string, name: string, rest: string)
    requires HasField(header, before, gap + name + rest) && Lacks(gap + name + rest, "filename=") && Blank(gap)
    requires name != "" && !IsSpace(name[0]) && name[0] != '\"' && name[0] != '\'' && ';' !in name
    requires (Blank(rest) && !IsSpace(name[|name| - 1])) || (rest != "" && rest[0] == ';')
    ensures ExtractFilename(header) == Meaning(name)
  {
    hide AfterFirst, ExtractFilename, Trim, SplitOnce, IsSpace;
    FieldValue(header, before, gap + name + rest);
    if Blank(rest) && !IsSpace(name[|name| - 1]) {
      TrimIsExact(gap, name, rest);
      assert SplitOnce(name, ';').None?;
    } else {
      SemicolonIsNoSpace();
      var (kept, after) := TrimmedEnd(rest);
      assert gap + name + rest == gap + (name + kept) + after;
      TrimIsExact(gap, name + kept, after);
      assert name + kept == name + ";" + kept[1..];
      SplitOnceAt(';', name, kept[1..]);
    }
    MeaningOfName(header, gap + name + rest, name);
  }

  lemma SemicolonIsNoSpace()
    ensures !IsSpace(';') && !IsSpace('\"') && !IsSpace('\'')
  {
  }

  /** A text that starts with something else than white space, cut off before its final white space. */
  function TrimmedEnd(s: string): (parts: (string, string))
    requires s != "" && !IsSpace(s[0])
    ensures s == parts.0 + parts.1 && Blank(parts.1)
    ensures parts.0 != "" && parts.0[0] == s[0] && !IsSpace(parts.0[|parts.0| - 1])
  {
    if IsSpace(s[|s| - 1]) then
      var (kept, after) := TrimmedEnd(s[..|s| - 1]);
      assert s == s[..|s| - 1] + [s[|s| - 1]];
      (kept, after + [s[|s| - 1]])
    else (s, "")
  }

  /** A value in double or single quotes ends at the next one of the same kind, whatever follows. */
  lemma QuotedValue(header: string, before: string, gap: string, quote: char, name: string, rest: string)
    requires quote == '\"' || quote == '\''
    requires HasField(header, before, gap + ([quote] + name + [quote]) + rest)
    requires Lacks(gap + ([quote] + name + [quote]) + rest, "filename=") && Blank(gap) && quote !in name
    ensures ExtractFilename(header) == Meaning(name)
  {
    hide AfterFirst, ExtractFilename, Trim, SplitOnce, IsSpace;
    var quoted := [quote] + name + [quote];
    SemicolonIsNoSpace();
    FieldValue(header, before, gap + quoted + rest);
    var (kept, after) := TrimmedEnd(quoted + rest);
    assert gap + quoted + rest == gap + kept + after by {
      assert gap + quoted + rest == gap + (quoted + rest);
    }
    TrimIsExact(gap, kept, after);
    QuotesStay(quoted, rest, kept, after);
    var more := kept[|quoted|..];
    assert kept == quoted + more;
    assert kept[1..] == name + [quote] + more;
    SplitOnceAt(quote, name, more);
    MeaningOfName(header, gap + quoted + rest, name);
  }

  lemma QuotesStay(quoted: string, rest: string, kept: string, after: string)
    requires quoted + rest == kept + after && Blank(after) && quoted != "" && !IsSpace(quoted[|quoted| - 1])
    ensures |kept| >= |quoted| && kept[..|quoted|] == quoted
  {
    var s := quoted + rest;
    forall i | |kept| <= i < |s|
      ensures IsSpace(s[i])
    {
      assert s[i] == after[i - |kept|] && s[i] in after;
    }
    assert s[|quoted| - 1] == quoted[|quoted| - 1];
    assert kept == s[..|kept|];
  }

  /** A quote that is never closed stays part of the name. */
  lemma UnclosedValue(header: string, before: string, gap: string, quote: char, name: string, after: string)
    requires quote == '\"' || quote == '\''
    requires HasField(header, before, gap + ([quote] + name) + after) && Lacks(gap + ([quote] + name) + after, "filename=")
    requires Blank(gap) && Blank(after) && quote !in name && (name == "" || !IsSpace(name[|name| - 1]))
    ensures ExtractFilename(header) == Meaning([quote] + name)
  {
    hide AfterFirst, ExtractFilename, Trim, SplitOnce, IsSpace;
    SemicolonIsNoSpace();
    FieldValue(header, before, gap + ([quote] + name) + after);
    TrimIsExact(gap, [quote] + name, after);
    assert ([quote] + name)[1..] == name;
    assert SplitOnce(name, quote).None?;
    MeaningOfName(header, gap + ([quote] + name) + after, [quote] + name);
  }

  /** A second filename field ends the first one's value, which alone counts. */
  lemma SecondFieldIsIgnored(header: string, before: string, value: string, more: string)
    requires HasField(header, before, value + ("filename=" + more)) && HasField(value + ("filename=" + more), value, more)
    requires HasField(before + ("filename=" + value), before, value) && Lacks(value, "filename=")
    ensures ExtractFilename(header) == ExtractFilename(before + ("filename=" + value))
  {
    hide AfterFirst, BareName, Trim, Utf8, Percent.Decode;
    FieldValue(header, before, value + ("filename=" + more));
    FieldValue(before + ("filename=" + value), before, value);
  }

  /** The printer keeps exactly what `encodeURIComponent` keeps. */
  lemma ComponentKeeps(c: char)
    requires c as int < 256
    ensures EncodeByte(c, COMPONENT_KEEPS) == [c] <==>
      'A' <= c <= 'Z' || 'a' <= c <= 'z' || '0' <= c <= '9'
      || c in {'-', '_', '.', '!', '~', '*', '\'', '(', ')'}
  {
  }

  // ---- Round trip ----

  lemma EncodedKeyIsPlain(key: string)
    ensures var e := Encode(key, COMPONENT_KEEPS); '=' !in e && '\"' !in e
  {
    EncodedCharacters(key, COMPONENT_KEEPS);
  }

  /** A pattern only occurs in a text that has all of its characters. */
  lemma FoundCharacters(s: string, pattern: string, i: nat)
    requires FindText(s, pattern).Some? && i < |pattern|
    ensures pattern[i] in s
  {
  }

  lemma FilenamePart(key: string)
    ensures "attachment; " <= PrintHeader(key)
    ensures AfterFirst(PrintHeader(key), "filename=") == Some("\"" + Encode(key, COMPONENT_KEEPS) + "\"")
  {
    hide FindText, Encode;
    var e := Encode(key, COMPONENT_KEEPS);
    var before, rest := "attachment; ", "\"" + e + "\"";
    var header := PrintHeader(key);
    assert header == before + "filename=" + rest;
    assert "filename=" <= header[12..];
    EncodedKeyIsPlain(key);
    forall k | 0 <= k < 12
      ensures !("filename=" <= header[k..])
    {
      assert header[k..][0] == before[k];
      assert header[k..][0] == "filename="[0] ==> false;
    }
    assert FindText(header, "filename=") == Some(12);
    assert header[12 + 9..] == rest;
    if FindText(rest, "filename=").Some? {
      FoundCharacters(rest, "filename=", 8);
    }
  }

  lemma QuotedName(e: string)
    requires '\"' !in e
    ensures BareName(Trim("\"" + e + "\"")) == e
  {
    hide SplitOnce;
    var part := "\"" + e + "\"";
    assert part[0] == '\"' && part[|part| - 1] == '\"';
    assert TrimStart(part) == part && TrimEnd(part) == part;
    assert part[1..] == e + "\"" + "";
    SplitOnceAt('\"', e, "");
  }

  /** Encoding keeps the marker of an extended value at the start of a key, and never creates one. */
  lemma MarkerSurvives(key: string)
    ensures "UTF-8''" <= Encode(key, COMPONENT_KEEPS) <==> "UTF-8''" <= key
    ensures "UTF-8''" <= key ==> Encode(key, COMPONENT_KEEPS) == "UTF-8''" + Encode(key[7..], COMPONENT_KEEPS)
  {
    KeptPrefix(key, "UTF-8''");
  }

  lemma {:induction false} KeptPrefix(key: string, marker: string)
    requires forall c :: c in marker ==> (IsUnreserved(c) || c in COMPONENT_KEEPS) && c != '%'
    ensures marker <= Encode(key, COMPONENT_KEEPS) <==> marker <= key
    ensures marker <= key ==> Encode(key, COMPONENT_KEEPS) == marker + Encode(key[|marker|..], COMPONENT_KEEPS)
    decreases marker
  {
    if marker != "" && key != "" {
      assert marker[0] in marker;
      var e := EncodeByte(key[0], COMPONENT_KEEPS);
      if key[0] == marker[0] {
        KeptPrefix(key[1..], marker[1..]);
        assert Encode(key, COMPONENT_KEEPS)[1..] == Encode(key[1..], COMPONENT_KEEPS);
        assert marker == [marker[0]] + marker[1..];
        if marker <= key {
          assert key[1..][|marker| - 1..] == key[|marker|..];
        }
      } else {
        assert e[0] != marker[0];
      }
    }
  }

  /**
   The upload key survives the trip through the header exactly when it does not itself start with the
   marker of an extended value, for every valid UTF-8 key.
   */
  lemma KeyRoundTrip(key: string)
    requires Utf8(key)
    ensures ExtractFilename(PrintHeader(key)) == Some(key) <==> !("UTF-8''" <= key)
  {
    hide Encode, Utf8, AfterFirst, BareName, Trim, PrintHeader, Percent.Decode;
    var e := Encode(key, COMPONENT_KEEPS);
    FilenamePart(key);
    EncodedKeyIsPlain(key);
    QuotedName(e);
    MarkerSurvives(key);
    Utf8IsBytewise(key);
    if "UTF-8''" <= key {
      StripPrefixed("UTF-8''", Encode(key[7..], COMPONENT_KEEPS));
      DecodeOfEncode(key[7..], COMPONENT_KEEPS);
    } else {
      DecodeOfEncode(key, COMPONENT_KEEPS);
    }
  }
}
