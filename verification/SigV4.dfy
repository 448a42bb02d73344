/**
 AWS Signature Version 4 as s3/auth.rs verifies it, and the signing procedure its clients follow.
 SHA-256, HMAC and the timestamp parser are parameters.
 */
module SigV4 {
  import opened Base
  import opened Text
  import opened Percent
  import opened Sorting
  import opened Canonical

  // ---- Parameters ----

  predicate IsHexText(s: string) {
    forall i :: 0 <= i < |s| ==> IsDigit(s[i]) || 'a' <= s[i] <= 'f'
  }

  datatype Signing = Signing(
    sha256Hex: string -> string,
    hmac: (string, string) -> string,
    hex: string -> string,
    parseTime: string -> Option<int>)
  {
    /** Hexadecimal text is lower case and twice as long; digests have 32 bytes. */
    ghost predicate Lawful() {
      && (forall x :: IsHexText(sha256Hex(x)) && |sha256Hex(x)| == 64)
      && (forall k, x :: |hmac(k, x)| == 32 && Bytewise(hmac(k, x)))
      && (forall x :: IsHexText(hex(x)) && |hex(x)| == 2 * |x|)
      && (forall x, y :: Bytewise(x) && Bytewise(y) && hex(x) == hex(y) ==> x == y)
    }
  }

  // ---- Requests ----

  type Headers = map<string, string>

  datatype Request = Request(verb: string, path: string, query: string, headers: Headers, body: string)

  datatype S3Config = S3Config(accessKey: string, secretKey: string)

  datatype S3Error = AccessDenied | InvalidRequest | SignatureDoesNotMatch | RequestTimeTooSkewed | NotImplemented

  datatype Outcome<T> = Fine(value: T) | Refused(error: S3Error)

  /** What `HeaderValue::to_str` accepts. */
  predicate Visible(s: string) {
    forall i :: 0 <= i < |s| ==> s[i] == '\t' || ' ' <= s[i] <= '~'
  }

  /** Tabs, and the bytes from the space to the tilde. */
  lemma VisibleBytes(s: string)
    ensures Visible(s) <==> forall c :: c in s ==> c as int == 9 || 32 <= c as int <= 126
  {
    assert forall i :: 0 <= i < |s| ==> s[i] in s;
  }

  function HeaderText(h: Headers, name: string): Option<string> {
    if name in h && Visible(h[name]) then Some(h[name]) else None
  }

  function LowerAll(names: seq<string>): (r: seq<string>)
    ensures |r| == |names| && forall i :: 0 <= i < |names| ==> r[i] == Lower(names[i])
  {
    seq(|names|, i requires 0 <= i < |names| => Lower(names[i]))
  }

  // ---- parse_authorization ----

  datatype ParsedAuth = ParsedAuth(accessKey: string, date: string, region: string, signedHeaders: seq<string>, signature: string)

  datatype Fields = Fields(credential: Option<string>, signedHeaders: Option<string>, signature: Option<string>)

  function ReadField(fields: Fields, part: string): Fields {
    var part := Trim(part);
    match StripPrefix(part, "Credential=")
    case Some(v) => fields.(credential := Some(v))
    case None =>
      match StripPrefix(part, "SignedHeaders=")
      case Some(v) => fields.(signedHeaders := Some(v))
      case None =>
        match StripPrefix(part, "Signature=")
        case Some(v) => fields.(signature := Some(v))
        case None => fields
  }

  /** Later fields win. */
  function ReadFields(parts: seq<string>): Fields {
    if parts == [] then Fields(None, None, None)
    else ReadField(ReadFields(parts[..|parts| - 1]), parts[|parts| - 1])
  }

  /** The first three of the five parts a credential must have. */
  function CredentialParts(credential: string): Option<(string, string, string)> {
    match SplitOnce(credential, '/')
    case None => None
    case Some((accessKey, rest)) =>
      match SplitOnce(rest, '/')
      case None => None
      case Some((date, rest)) =>
        match SplitOnce(rest, '/')
        case None => None
        case Some((region, rest)) => if '/' in rest then Some((accessKey, date, region)) else None
  }

  function FromFields(f: Fields): Option<ParsedAuth> {
    if f.credential.None? || CredentialParts(f.credential.value).None? || f.signedHeaders.None? || f.signature.None? then None
    else
      var (accessKey, date, region) := CredentialParts(f.credential.value).value;
      Some(ParsedAuth(accessKey, date, region, Sort(LowerAll(Split(f.signedHeaders.value, ';')), StringLeq), f.signature.value))
  }

  function ParseAuthorization(header: string): Option<ParsedAuth> {
    match StripPrefix(header, "AWS4-HMAC-SHA256 ")
    case None => None
    case Some(rest) => FromFields(ReadFields(Split(rest, ',')))
  }

  /** The loop over the comma-separated parts, updating three locals. */
  method ReadAuthorization(header: string) returns (r: Option<ParsedAuth>)
    ensures r == ParseAuthorization(header)
  {
    hide Split, Trim, SplitOnce, Sort;
    var rest := StripPrefix(header, "AWS4-HMAC-SHA256 ");
    if rest.None? {
      return None;
    }
    var parts := Split(rest.value, ',');
    var credential: Option<string> := None;
    var signedHeaders: Option<string> := None;
    var signature: Option<string> := None;
    for i := 0 to |parts|
      invariant Fields(credential, signedHeaders, signature) == ReadFields(parts[..i])
    {
      assert parts[..i + 1][..i] == parts[..i];
      var part := Trim(parts[i]);
      var v := StripPrefix(part, "Credential=");
      if v.Some? {
        credential := v;
        continue;
      }
      v := StripPrefix(part, "SignedHeaders=");
      if v.Some? {
        signedHeaders := v;
        continue;
      }
      v := StripPrefix(part, "Signature=");
      if v.Some? {
        signature := v;
      }
    }
    assert parts[..|parts|] == parts;
    r := FromFields(Fields(credential, signedHeaders, signature));
  }

  // ---- What an authorization header says ----

  /** The value of a field: the last part that starts with its name, trimmed, decides. */
  ghost predicate SaysLast(parts: seq<string>, name: string, value: Option<string>) {
    match value
    case None => forall i :: 0 <= i < |parts| ==> !(name <= Trim(parts[i]))
    case Some(v) => exists i :: 0 <= i < |parts| && SaidLastAt(parts, name, v, i)
  }

  predicate SaidLastAt(parts: seq<string>, name: string, value: string, i: nat)
    requires i < |parts|
  {
    Trim(parts[i]) == name + value && forall j :: i < j < |parts| ==> !(name <= Trim(parts[j]))
  }

  /** The three fields may come in any order, and a later one of the same name wins. */
  lemma {:induction false} LastFieldsCount(parts: seq<string>)
    ensures SaysLast(parts, "Credential=", ReadFields(parts).credential)
    ensures SaysLast(parts, "SignedHeaders=", ReadFields(parts).signedHeaders)
    ensures SaysLast(parts, "Signature=", ReadFields(parts).signature)
  {
    hide Trim;
    if parts != [] {
      var front, last := parts[..|parts| - 1], parts[|parts| - 1];
      LastFieldsCount(front);
      NamesDiffer(Trim(last));
      SaysNext(front, last, "Credential=", ReadFields(front).credential);
      SaysNext(front, last, "SignedHeaders=", ReadFields(front).signedHeaders);
      SaysNext(front, last, "Signature=", ReadFields(front).signature);
      assert parts == front + [last];
    }
  }

  lemma NamesDiffer(s: string)
    ensures "Credential=" <= s ==> !("SignedHeaders=" <= s) && !("Signature=" <= s)
    ensures "SignedHeaders=" <= s ==> !("Signature=" <= s)
  {
    if "Credential=" <= s {
      assert s[0] == "Credential="[0] == 'C';
    }
    if "SignedHeaders=" <= s {
      assert s[4] == "SignedHeaders="[4] == 'e' && "Signature="[4] == 'a';
    }
  }

  lemma SaysNext(front: seq<string>, last: string, name: string, value: Option<string>)
    requires SaysLast(front, name, value)
    ensures SaysLast(front + [last], name, if name <= Trim(last) then Some(Trim(last)[|name|..]) else value)
  {
    hide Trim;
    var parts := front + [last];
    if name <= Trim(last) {
      assert SaidLastAt(parts, name, Trim(last)[|name|..], |front|);
    } else if value.Some? {
      var i :| 0 <= i < |front| && SaidLastAt(front, name, value.value, i);
      assert SaidLastAt(parts, name, value.value, i);
    }
  }

  /** A credential has at least five parts between slashes; the first three are key, date and region. */
  lemma CredentialHasFiveParts(credential: string, accessKey: string, date: string, region: string)
    ensures CredentialParts(credential) == Some((accessKey, date, region)) <==>
      && '/' !in accessKey && '/' !in date && '/' !in region
      && exists rest :: '/' in rest && credential == accessKey + "/" + (date + "/" + (region + "/" + rest))
  {
    hide SplitOnce;
    if '/' !in accessKey && '/' !in date && '/' !in region {
      if rest :| '/' in rest && credential == accessKey + "/" + (date + "/" + (region + "/" + rest)) {
        FourParts(accessKey, date, region, rest);
      }
    }
    if CredentialParts(credential) == Some((accessKey, date, region)) {
      var rest1 := SplitOnce(credential, '/').value.1;
      var rest2 := SplitOnce(rest1, '/').value.1;
      var rest3 := SplitOnce(rest2, '/').value.1;
      assert credential == accessKey + "/" + (date + "/" + (region + "/" + rest3));
    }
  }

  lemma FieldsHold(f: Fields)
    requires FromFields(f).Some?
    ensures f.credential.Some? && f.signedHeaders.Some?
    ensures var auth := FromFields(f).value;
            && CredentialParts(f.credential.value) == Some((auth.accessKey, auth.date, auth.region))
            && f.signature == Some(auth.signature)
            && auth.signedHeaders == Sort(LowerAll(Split(f.signedHeaders.value, ';')), StringLeq)
  {
    hide Split, Sort, CredentialParts;
    var (accessKey, date, region) := CredentialParts(f.credential.value).value;
    assert CredentialParts(f.credential.value) == Some((accessKey, date, region));
  }

  /** What a parsed header holds: key, date and region of its credential, the signed names in lower case and byte order, the signature. */
  lemma ParsedHeaderHolds(header: string)
    requires ParseAuthorization(header).Some?
    ensures "AWS4-HMAC-SHA256 " <= header
    ensures var auth := ParseAuthorization(header).value;
            var fields := ReadFields(Split(header[17..], ','));
            && fields.credential.Some? && CredentialParts(fields.credential.value) == Some((auth.accessKey, auth.date, auth.region))
            && fields.signature == Some(auth.signature) && fields.signedHeaders.Some?
            && multiset(auth.signedHeaders) == multiset(LowerAll(Split(fields.signedHeaders.value, ';')))
            && forall i, j :: 0 <= i < j < |auth.signedHeaders| ==> Precedes(auth.signedHeaders[i], auth.signedHeaders[j])
  {
    hide Split, ReadFields, CredentialParts, StringLeq, Sort, Precedes;
    var auth := ParseAuthorization(header).value;
    assert StripPrefix(header, "AWS4-HMAC-SHA256 ") == Some(header[17..]);
    var fields := ReadFields(Split(header[17..], ','));
    assert FromFields(fields) == Some(auth);
    FieldsHold(fields);
    var names := LowerAll(Split(fields.signedHeaders.value, ';'));
    StringsAreOrdered();
    SortIsSorted(names, StringLeq);
    SameLength(auth.signedHeaders, names);
    forall i, j | 0 <= i < j < |auth.signedHeaders|
      ensures Precedes(auth.signedHeaders[i], auth.signedHeaders[j])
    {
      SortedTexts(names, i, j);
    }
  }

  /** And a header parses exactly when it has the scheme, a five-part credential, signed names and a signature. */
  lemma HeaderParsesExactly(header: string)
    ensures ParseAuthorization(header).Some? <==>
      && "AWS4-HMAC-SHA256 " <= header
      && var fields := ReadFields(Split(header[17..], ','));
         && fields.credential.Some? && CredentialParts(fields.credential.value).Some?
         && fields.signedHeaders.Some? && fields.signature.Some?
  {
    hide Split, ReadFields, CredentialParts, Sort;
  }

  // ---- The canonical request ----

  function FirstSpace(s: string): (n: nat)
    ensures n <= |s|
    ensures s != "" && !IsSpace(s[0]) ==> n > 0
  {
    if s == "" || IsSpace(s[0]) then 0 else 1 + FirstSpace(s[1..])
  }

  function Words(s: string): seq<string>
    decreases |s|
  {
    if s == "" then []
    else if IsSpace(s[0]) then Words(s[1..])
    else [s[..FirstSpace(s)]] + Words(s[FirstSpace(s)..])
  }

  /** White space between and around words. */
  function Spread(words: seq<string>, gaps: seq<string>): string
    requires |gaps| == |words| + 1
  {
    if words == [] then gaps[0] else gaps[0] + words[0] + Spread(words[1..], gaps[1..])
  }

  /** Words are non-empty and have no white space, gaps have nothing else, and only the outer ones may be empty. */
  predicate Spaced(words: seq<string>, gaps: seq<string>) {
    && |gaps| == |words| + 1
    && (forall i :: 0 <= i < |words| ==> words[i] != "" && forall c :: c in words[i] ==> !IsSpace(c))
    && (forall i :: 0 <= i < |gaps| ==> Blank(gaps[i]) && (0 < i < |words| ==> gaps[i] != ""))
  }

  lemma {:induction false} WordsSkip(gap: string, rest: string)
    requires Blank(gap)
    ensures Words(gap + rest) == Words(rest)
    decreases gap
  {
    if gap == "" {
      assert gap + rest == rest;
    } else {
      assert gap[0] in gap;
      assert (gap + rest)[1..] == gap[1..] + rest;
      WordsSkip(gap[1..], rest);
    }
  }

  lemma {:induction false} FirstSpaceAfter(word: string, rest: string)
    requires (forall c :: c in word ==> !IsSpace(c)) && (rest == "" || IsSpace(rest[0]))
    ensures FirstSpace(word + rest) == |word|
  {
    if word == "" {
      assert word + rest == rest;
    } else {
      assert word[0] in word;
      assert (word + rest)[1..] == word[1..] + rest;
      FirstSpaceAfter(word[1..], rest);
    }
  }

  lemma {:induction false} WordsOfSpread(words: seq<string>, gaps: seq<string>)
    requires Spaced(words, gaps)
    ensures Words(Spread(words, gaps)) == words
    decreases words
  {
    hide FirstSpace, IsSpace;
    if words == [] {
      assert gaps[0] + "" == gaps[0];
      WordsSkip(gaps[0], "");
    } else {
      var word, rest := words[0], Spread(words[1..], gaps[1..]);
      assert gaps[0] + word + rest == gaps[0] + (word + rest);
      WordsSkip(gaps[0], word + rest);
      SpreadStartsBlank(words[1..], gaps[1..]);
      FirstSpaceAfter(word, rest);
      assert word[0] in word;
      assert (word + rest)[..|word|] == word && (word + rest)[|word|..] == rest;
      WordsOfSpread(words[1..], gaps[1..]);
      assert words == [word] + words[1..];
    }
  }

  lemma SpreadStartsBlank(words: seq<string>, gaps: seq<string>)
    requires |gaps| == |words| + 1 && Blank(gaps[0]) && (words != [] ==> gaps[0] != "")
    ensures var s := Spread(words, gaps); s == "" || IsSpace(s[0])
  {
    assert gaps[0] != "" ==> gaps[0][0] in gaps[0];
  }

  lemma {:induction false} WordsOfTrimmed(s: string)
    ensures Words(TrimStart(s)) == Words(s)
  {
    if s != "" && IsSpace(s[0]) {
      WordsOfTrimmed(s[1..]);
    }
  }

  lemma {:induction false} WordsBeforeSpace(s: string, c: char)
    requires IsSpace(c)
    ensures Words(s + [c]) == Words(s)
    decreases |s|
  {
    hide IsSpace;
    if s == "" {
      assert s + [c] == [c] && [c][1..] == "";
      assert Words([c]) == Words("");
    } else if IsSpace(s[0]) {
      assert (s + [c])[1..] == s[1..] + [c];
      WordsBeforeSpace(s[1..], c);
    } else {
      FirstSpaceKept(s, c);
      var n := FirstSpace(s);
      assert (s + [c])[..n] == s[..n] && (s + [c])[n..] == s[n..] + [c];
      WordsBeforeSpace(s[n..], c);
    }
  }

  lemma {:induction false} FirstSpaceKept(s: string, c: char)
    requires IsSpace(c)
    ensures FirstSpace(s + [c]) == FirstSpace(s)
  {
    if s != "" && !IsSpace(s[0]) {
      assert (s + [c])[1..] == s[1..] + [c];
      FirstSpaceKept(s[1..], c);
    }
  }

  lemma {:induction false} WordsOfEndTrimmed(s: string)
    ensures Words(TrimEnd(s)) == Words(s)
  {
    hide Words, IsSpace;
    if s != "" && IsSpace(s[|s| - 1]) {
      var front := s[..|s| - 1];
      assert s == front + [s[|s| - 1]];
      WordsBeforeSpace(front, s[|s| - 1]);
      WordsOfEndTrimmed(front);
    }
  }

  function HeaderLine(h: Headers, name: string): string {
    var value := match HeaderText(h, name) case Some(v) => v case None => "";
    name + ":" + Join(Words(Trim(value)), " ")
  }

  /** A signed header's line: its name, a colon, and the words of its value with one space between any two; nothing for a value that is absent or not visible. */
  lemma HeaderLineIsCollapsed(h: Headers, name: string, words: seq<string>, gaps: seq<string>)
    requires Spaced(words, gaps)
    ensures name in h && Visible(h[name]) && h[name] == Spread(words, gaps) ==> HeaderLine(h, name) == name + ":" + Join(words, " ")
    ensures name !in h || !Visible(h[name]) ==> HeaderLine(h, name) == name + ":"
  {
    hide Spread, Words, TrimStart, TrimEnd, Join;
    var s := Spread(words, gaps);
    WordsOfSpread(words, gaps);
    WordsOfTrimmed(s);
    WordsOfEndTrimmed(TrimStart(s));
    NoWords();
  }

  lemma NoWords()
    ensures Words(TrimEnd(TrimStart(""))) == [] && Join([], " ") == ""
  {
  }

  /** Every value is some words with white space between and around them. */
  lemma {:induction false} EveryValueIsSpaced(s: string) returns (words: seq<string>, gaps: seq<string>)
    ensures Spaced(words, gaps) && Spread(words, gaps) == s
    decreases |s|
  {
    if s == "" {
      words, gaps := [], [""];
    } else {
      var words', gaps' := EveryValueIsSpaced(s[1..]);
      assert s == [s[0]] + s[1..];
      if IsSpace(s[0]) {
        words, gaps := words', [[s[0]] + gaps'[0]] + gaps'[1..];
        assert gaps[1..] == gaps'[1..];
      } else if words' != [] && gaps'[0] == "" {
        words, gaps := [[s[0]] + words'[0]] + words'[1..], gaps';
        assert words[1..] == words'[1..];
      } else {
        words, gaps := [[s[0]]] + words', [""] + gaps';
        assert words[1..] == words' && gaps[1..] == gaps';
      }
    }
  }

  function HeaderLines(h: Headers, names: seq<string>): seq<string> {
    if names == [] then [] else [HeaderLine(h, names[0])] + HeaderLines(h, names[1..])
  }

  function CanonicalHeaders(h: Headers, names: seq<string>): string {
    Join(HeaderLines(h, names), "\n") + "\n"
  }

  function CanonicalRequest(r: Request, names: seq<string>, payload: string): string {
    r.verb + "\n" + (CanonicalUri(r.path) + "\n" + (CanonicalQuery(r.query) + "\n"
      + (CanonicalHeaders(r.headers, names) + "\n" + Join(names, ";") + "\n" + payload)))
  }

  function Scope(date: string, region: string): string {
    date + "/" + region + "/s3/aws4_request"
  }

  function StringToSign(sg: Signing, amzDate: string, date: string, region: string, canonical: string): string {
    "AWS4-HMAC-SHA256\n" + (amzDate + "\n" + (Scope(date, region) + "\n" + sg.sha256Hex(canonical)))
  }

  function SigningKey(sg: Signing, secret: string, date: string, region: string): string {
    sg.hmac(sg.hmac(sg.hmac(sg.hmac("AWS4" + secret, date), region), "s3"), "aws4_request")
  }

  function Signature(sg: Signing, secret: string, amzDate: string, date: string, region: string, canonical: string): string {
    sg.hex(sg.hmac(SigningKey(sg, secret, date, region), StringToSign(sg, amzDate, date, region, canonical)))
  }

  lemma HeaderLineIsOneLine(h: Headers, name: string)
    requires '\n' !in name
    ensures '\n' !in HeaderLine(h, name)
  {
    hide Spread, Join, HeaderLine, Blank;
    var words, gaps := EveryValueIsSpaced(if name in h then h[name] else "");
    HeaderLineIsCollapsed(h, name, words, gaps);
    assert IsSpace('\n');
    JoinHasNo(words, " ", '\n');
  }

  lemma {:induction false} LinesOfNames(h: Headers, names: seq<string>)
    ensures |HeaderLines(h, names)| == |names|
    ensures forall i :: 0 <= i < |names| ==> HeaderLines(h, names)[i] == HeaderLine(h, names[i])
  {
    hide HeaderLine;
    if names != [] {
      LinesOfNames(h, names[1..]);
    }
  }

  /**
   The lines of a canonical request: verb, canonical path, canonical query, one line a signed header, an
   empty line, the list of signed names, and the digest of the body.
   */
  lemma CanonicalRequestLines(r: Request, names: seq<string>, payload: string)
    requires '\n' !in r.verb && '\n' !in payload && names != [] && forall n :: n in names ==> '\n' !in n
    ensures |HeaderLines(r.headers, names)| == |names|
    ensures forall i :: 0 <= i < |names| ==> HeaderLines(r.headers, names)[i] == HeaderLine(r.headers, names[i])
    ensures Split(CanonicalRequest(r, names, payload), '\n') ==
      [r.verb, CanonicalUri(r.path), CanonicalQuery(r.query)] + HeaderLines(r.headers, names) + ["", Join(names, ";"), payload]
  {
    hide CanonicalUri, CanonicalQuery, CanonicalRequest, HeaderLine, HeaderLines, Split, Join;
    var front, back := [r.verb, CanonicalUri(r.path), CanonicalQuery(r.query)], ["", Join(names, ";"), payload];
    var lines := HeaderLines(r.headers, names);
    CanonicalPartsHaveNoNewline(r.path, r.query);
    JoinHasNo(names, ";", '\n');
    LinesOfNames(r.headers, names);
    forall l | l in lines
      ensures '\n' !in l
    {
      var i :| 0 <= i < |lines| && lines[i] == l;
      assert names[i] in names;
      HeaderLineIsOneLine(r.headers, names[i]);
    }
    CanonicalRequestJoins(r, names, payload);
    SplitThree(front, lines, back);
  }

  lemma SplitThree(front: seq<string>, lines: seq<string>, back: seq<string>)
    requires front != [] && forall p :: p in front || p in lines || p in back ==> '\n' !in p
    ensures Split(Join(front + lines + back, "\n"), '\n') == front + lines + back
  {
    hide Split, Join;
    SplitOfJoin(front + lines + back, '\n');
  }

  lemma CanonicalRequestJoins(r: Request, names: seq<string>, payload: string)
    requires names != []
    ensures CanonicalRequest(r, names, payload) == Join(
      [r.verb, CanonicalUri(r.path), CanonicalQuery(r.query)] + HeaderLines(r.headers, names) + ["", Join(names, ";"), payload], "\n")
  {
    hide CanonicalUri, CanonicalQuery, HeaderLine, Join;
    LinesOfNames(r.headers, names);
    var lines, list := HeaderLines(r.headers, names), Join(names, ";");
    var front, back := [r.verb, CanonicalUri(r.path), CanonicalQuery(r.query)], ["", list, payload];
    JoinAppend(front + lines, back, "\n");
    JoinAppend(front, lines, "\n");
    JoinOfThree(r.verb, CanonicalUri(r.path), CanonicalQuery(r.query));
    JoinOfThree("", list, payload);
    var u, q, h := CanonicalUri(r.path), CanonicalQuery(r.query), Join(lines, "\n");
    Flatten(r.verb, u, q, h, list, payload, "\n");
  }

  lemma JoinOfThree(a: string, b: string, c: string)
    ensures Join([a, b, c], "\n") == a + "\n" + b + "\n" + c
  {
    assert [a, b, c][1..] == [b, c] && [b, c][1..] == [c];
    assert Join([b, c], "\n") == b + "\n" + c;
  }

  lemma Flatten(v: string, u: string, q: string, h: string, l: string, p: string, n: string)
    ensures v + n + (u + n + (q + n + (h + n + n + l + n + p)))
      == (v + n + u + n + q) + n + h + n + ("" + n + l + n + p)
  {
  }

  lemma SplitLine(line: string, rest: string)
    requires '\n' !in line
    ensures Split(line + "\n" + rest, '\n') == [line] + Split(rest, '\n')
  {
    SplitOnceAt('\n', line, rest);
  }

  lemma OneLine(line: string)
    requires '\n' !in line
    ensures Split(line, '\n') == [line]
  {
  }

  /** The four lines of a string to sign; the scope's parts are date, region, service and terminator. */
  lemma StringToSignLines(sg: Signing, amzDate: string, date: string, region: string, canonical: string)
    requires sg.Lawful() && '\n' !in amzDate && '\n' !in date && '\n' !in region
    ensures Split(StringToSign(sg, amzDate, date, region, canonical), '\n') ==
      ["AWS4-HMAC-SHA256", amzDate, Join([date, region, "s3", "aws4_request"], "/"), sg.sha256Hex(canonical)]
  {
    hide Split;
    var scope, digest := Scope(date, region), sg.sha256Hex(canonical);
    HexHasNoNewline(digest);
    OneLine(digest);
    SplitLine(scope, digest);
    SplitLine(amzDate, scope + "\n" + digest);
    SplitLine("AWS4-HMAC-SHA256", amzDate + "\n" + (scope + "\n" + digest));
    assert StringToSign(sg, amzDate, date, region, canonical)
      == "AWS4-HMAC-SHA256" + "\n" + (amzDate + "\n" + (scope + "\n" + digest));
    ScopeParts(date, region);
  }

  lemma ScopeParts(date: string, region: string)
    ensures Scope(date, region) == Join([date, region, "s3", "aws4_request"], "/")
  {
    var parts := [date, region, "s3", "aws4_request"];
    assert parts[1..] == [region, "s3", "aws4_request"] && parts[1..][1..] == ["s3", "aws4_request"];
    assert parts[1..][1..][1..] == ["aws4_request"];
    assert Join(["s3", "aws4_request"], "/") == "s3" + "/" + "aws4_request";
    assert Join([region, "s3", "aws4_request"], "/") == region + "/" + ("s3" + "/" + "aws4_request");
    assert "/s3/aws4_request" == "/" + ("s3" + "/" + "aws4_request");
  }

  /** Keying a chain of messages, each with the result of the one before. */
  function KeyChain(sg: Signing, key: string, messages: seq<string>): string
    decreases messages
  {
    if messages == [] then key else KeyChain(sg, sg.hmac(key, messages[0]), messages[1..])
  }

  /** The signing key chains the same four parts from the prefixed secret, and signs the string in hexadecimal. */
  lemma SignatureIsChained(sg: Signing, secret: string, amzDate: string, date: string, region: string, canonical: string)
    ensures Signature(sg, secret, amzDate, date, region, canonical)
      == sg.hex(KeyChain(sg, "AWS4" + secret, [date, region, "s3", "aws4_request", StringToSign(sg, amzDate, date, region, canonical)]))
  {
    hide StringToSign;
    var text := StringToSign(sg, amzDate, date, region, canonical);
    var messages := [date, region, "s3", "aws4_request", text];
    var k1 := sg.hmac("AWS4" + secret, date);
    var k2 := sg.hmac(k1, region);
    var k3 := sg.hmac(k2, "s3");
    var k4 := sg.hmac(k3, "aws4_request");
    assert messages[1..] == [region, "s3", "aws4_request", text] && messages[1..][1..] == ["s3", "aws4_request", text];
    assert messages[1..][1..][1..] == ["aws4_request", text] && messages[1..][1..][1..][1..] == [text];
    assert KeyChain(sg, k4, [text]) == sg.hmac(k4, text);
    assert KeyChain(sg, k3, ["aws4_request", text]) == sg.hmac(k4, text);
    assert KeyChain(sg, k2, ["s3", "aws4_request", text]) == sg.hmac(k4, text);
  }

  // ---- verify_sigv4 ----

  function PayloadHash(sg: Signing, r: Request): Outcome<string> {
    var actual := sg.sha256Hex(r.body);
    match HeaderText(r.headers, "x-amz-content-sha256")
    case None => Fine(actual)
    case Some(declared) =>
      if declared == "UNSIGNED-PAYLOAD" then Fine(declared)
      else if "STREAMING-" <= declared then Refused(NotImplemented)
      else if declared != actual then Refused(SignatureDoesNotMatch)
      else Fine(actual)
  }

  function Abs(x: int): nat {
    if x < 0 then -x else x
  }

  /** The request time in seconds against the clock in milliseconds; whole seconds count. */
  predicate TooSkewed(now: int, time: int) {
    Abs(now - time * 1000) / 1000 > 900
  }

  function Verify(sg: Signing, r: Request, cfg: S3Config, now: int): Outcome<()> {
    match HeaderText(r.headers, "authorization")
    case None => Refused(AccessDenied)
    case Some(header) =>
      match ParseAuthorization(header)
      case None => Refused(InvalidRequest)
      case Some(auth) =>
        if auth.accessKey != cfg.accessKey then Refused(SignatureDoesNotMatch)
        else match HeaderText(r.headers, "x-amz-date")
          case None => Refused(InvalidRequest)
          case Some(amzDate) =>
            match sg.parseTime(amzDate)
            case None => Refused(InvalidRequest)
            case Some(time) =>
              if TooSkewed(now, time) then Refused(RequestTimeTooSkewed)
              else match PayloadHash(sg, r)
                case Refused(e) => Refused(e)
                case Fine(payload) =>
                  var canonical := CanonicalRequest(r, auth.signedHeaders, payload);
                  if Signature(sg, cfg.secretKey, amzDate, auth.date, auth.region, canonical) == auth.signature
                  then Fine(()) else Refused(SignatureDoesNotMatch)
  }

  /** The request names the configured key in a header that parses. */
  ghost predicate NamesKey(r: Request, cfg: S3Config) {
    && HeaderText(r.headers, "authorization").Some?
    && ParseAuthorization(r.headers["authorization"]).Some?
    && ParseAuthorization(r.headers["authorization"]).value.accessKey == cfg.accessKey
  }

  ghost predicate Dated(sg: Signing, r: Request) {
    HeaderText(r.headers, "x-amz-date").Some? && sg.parseTime(r.headers["x-amz-date"]).Some?
  }

  /** Less than 901 seconds, in milliseconds, either way. */
  ghost predicate Timely(sg: Signing, r: Request, now: int) {
    Dated(sg, r) && -901000 < now - 1000 * sg.parseTime(r.headers["x-amz-date"]).value < 901000
  }

  /** What the request declares of its body is nothing, that it is unsigned, or its digest. */
  ghost predicate DeclaresBody(sg: Signing, r: Request) {
    HeaderText(r.headers, "x-amz-content-sha256") in {None, Some("UNSIGNED-PAYLOAD"), Some(sg.sha256Hex(r.body))}
  }

  ghost predicate DeclaresStream(r: Request) {
    HeaderText(r.headers, "x-amz-content-sha256").Some? && "STREAMING-" <= r.headers["x-amz-content-sha256"]
  }

  /** The body's part in the signature: its digest, unless it is declared unsigned. */
  function SignedPayload(sg: Signing, r: Request): string {
    if HeaderText(r.headers, "x-amz-content-sha256") == Some("UNSIGNED-PAYLOAD") then "UNSIGNED-PAYLOAD" else sg.sha256Hex(r.body)
  }

  ghost predicate CarriesSignature(sg: Signing, r: Request, cfg: S3Config)
    requires NamesKey(r, cfg) && Dated(sg, r)
  {
    var auth := ParseAuthorization(r.headers["authorization"]).value;
    auth.signature == Signature(sg, cfg.secretKey, r.headers["x-amz-date"], auth.date, auth.region,
                                CanonicalRequest(r, auth.signedHeaders, SignedPayload(sg, r)))
  }

  /**
   Verification, exactly: a request is accepted if and only if it names the configured key, is dated within
   the window, declares its body truly and carries the right signature. Without an authorization header
   access is denied; outside the window a request is too skewed, whatever its signature; a streamed body is
   not implemented; a header or date that does not parse is invalid; all else is a wrong signature.
   */
  lemma VerifyIsExact(sg: Signing, r: Request, cfg: S3Config, now: int)
    ensures Verify(sg, r, cfg, now) == Fine(()) <==>
      NamesKey(r, cfg) && Timely(sg, r, now) && DeclaresBody(sg, r) && !DeclaresStream(r) && CarriesSignature(sg, r, cfg)
    ensures Verify(sg, r, cfg, now) == Refused(AccessDenied) <==> HeaderText(r.headers, "authorization").None?
    ensures Verify(sg, r, cfg, now) == Refused(RequestTimeTooSkewed) <==> NamesKey(r, cfg) && Dated(sg, r) && !Timely(sg, r, now)
    ensures Verify(sg, r, cfg, now) == Refused(NotImplemented) <==> NamesKey(r, cfg) && Timely(sg, r, now) && DeclaresStream(r)
    ensures Verify(sg, r, cfg, now) == Refused(InvalidRequest) <==>
      && HeaderText(r.headers, "authorization").Some?
      && (ParseAuthorization(r.headers["authorization"]).None? || (NamesKey(r, cfg) && !Dated(sg, r)))
  {
    hide ParseAuthorization, Signature, CanonicalRequest, PayloadHash;
    if Dated(sg, r) {
      SkewInNumbers(now, sg.parseTime(r.headers["x-amz-date"]).value);
    }
    PayloadIsExact(sg, r);
  }

  lemma SkewInNumbers(now: int, time: int)
    ensures TooSkewed(now, time) <==> !(-901000 < now - 1000 * time < 901000)
  {
  }

  lemma PayloadIsExact(sg: Signing, r: Request)
    ensures PayloadHash(sg, r) == Fine(SignedPayload(sg, r)) <==> DeclaresBody(sg, r) && !DeclaresStream(r)
    ensures PayloadHash(sg, r).Fine? ==> PayloadHash(sg, r).value == SignedPayload(sg, r)
    ensures PayloadHash(sg, r) == Refused(NotImplemented) <==> DeclaresStream(r)
    ensures PayloadHash(sg, r).Refused? ==> PayloadHash(sg, r).error in {NotImplemented, SignatureDoesNotMatch}
  {
    assert !("STREAMING-" <= "UNSIGNED-PAYLOAD") by {
      assert "STREAMING-"[0] != "UNSIGNED-PAYLOAD"[0];
    }
  }

  /** `constant_time_eq`: looks at every byte, and still decides equality. */
  method ConstantTimeEq(a: seq<bv8>, b: seq<bv8>) returns (equal: bool)
    ensures equal <==> a == b
  {
    if |a| != |b| {
      return false;
    }
    var diff: bv8 := 0;
    for i := 0 to |a|
      invariant diff == 0 <==> a[..i] == b[..i]
    {
      XorIsZero(a[i], b[i], diff);
      diff := diff | (a[i] ^ b[i]);
      assert a[..i + 1] == a[..i] + [a[i]] && b[..i + 1] == b[..i] + [b[i]];
    }
    assert a[..|a|] == a && b[..|b|] == b;
    equal := diff == 0;
  }

  lemma XorIsZero(x: bv8, y: bv8, d: bv8)
    ensures d | (x ^ y) == 0 <==> d == 0 && x == y
  {
  }

  // ---- The signing procedure ----

  datatype Credentials = Credentials(accessKey: string, secretKey: string, region: string, date: string, amzDate: string)

  function Stamp(sg: Signing, r: Request, c: Credentials): Headers {
    r.headers["x-amz-date" := c.amzDate]["x-amz-content-sha256" := sg.sha256Hex(r.body)]
  }

  function PrintAuthorization(c: Credentials, names: seq<string>, signature: string): string {
    "AWS4-HMAC-SHA256 Credential=" + (c.accessKey + "/" + Scope(c.date, c.region))
      + ", SignedHeaders=" + Join(names, ";") + ", Signature=" + signature
  }

  /** `order` lists the header names in whatever order the header map iterates them. */
  function SignedNames(order: seq<string>): seq<string> {
    Sort(LowerAll(order), StringLeq)
  }

  function SignatureOf(sg: Signing, r: Request, c: Credentials, order: seq<string>): string {
    var stamped := r.(headers := Stamp(sg, r, c));
    Signature(sg, c.secretKey, c.amzDate, c.date, c.region,
              CanonicalRequest(stamped, SignedNames(order), sg.sha256Hex(r.body)))
  }

  function AuthorizationOf(sg: Signing, r: Request, c: Credentials, order: seq<string>): string {
    PrintAuthorization(c, SignedNames(order), SignatureOf(sg, r, c, order))
  }

  function Sign(sg: Signing, r: Request, c: Credentials, order: seq<string>): Request {
    r.(headers := Stamp(sg, r, c)["authorization" := AuthorizationOf(sg, r, c, order)])
  }

  /** A header name as HTTP libraries keep it: visible, lower case, no separators. */
  predicate Token(name: string) {
    && name != "" && Visible(name) && Lower(name) == name
    && forall c :: c in name ==> c != ',' && c != ';' && !IsSpace(c)
  }

  predicate Field(s: string) {
    Visible(s) && '/' !in s && ',' !in s
  }

  /** What the signer needs: visible, separator-free credential fields and proper header names. */
  ghost predicate Signable(sg: Signing, r: Request, c: Credentials, order: seq<string>) {
    && Field(c.accessKey) && Field(c.date) && Field(c.region)
    && "authorization" !in r.headers
    && multiset(order) == multiset(Stamp(sg, r, c).Keys)
    && (forall name :: name in Stamp(sg, r, c) ==> Token(name))
    && Visible(c.amzDate)
  }

  // ---- parse_authorization inverts the header printer ----

  ghost predicate NameList(names: seq<string>) {
    names != [] && Sorted(names, StringLeq) && forall i :: 0 <= i < |names| ==> Token(names[i])
  }

  /** A joined list of names has no comma, and ends in one of the names. */
  lemma {:induction false} JoinedNames(names: seq<string>)
    requires names != [] && forall i :: 0 <= i < |names| ==> Token(names[i])
    ensures var s := Join(names, ";"); s != "" && ',' !in s && !IsSpace(s[|s| - 1])
    ensures forall n :: n in names ==> ';' !in n
  {
    assert names[0][|names[0]| - 1] in names[0];
    if |names| > 1 {
      JoinedNames(names[1..]);
    }
  }

  lemma LastOf(front: string, s: string)
    requires s != ""
    ensures (front + s)[|front + s| - 1] == s[|s| - 1]
  {
  }

  lemma CredentialOf(c: Credentials)
    requires Field(c.accessKey) && Field(c.date) && Field(c.region)
    ensures var s := c.accessKey + "/" + Scope(c.date, c.region);
            CredentialParts(s) == Some((c.accessKey, c.date, c.region)) && ',' !in s && s[|s| - 1] == 't'
  {
    hide SplitOnce, CredentialParts;
    var rest2 := "s3/aws4_request";
    var rest1 := c.region + "/" + rest2;
    assert Scope(c.date, c.region) == c.date + "/" + rest1;
    LastOf(c.region + "/", rest2);
    LastOf(c.date + "/", rest1);
    LastOf(c.accessKey + "/", Scope(c.date, c.region));
    assert rest2[2] == '/';
    FourParts(c.accessKey, c.date, c.region, rest2);
  }

  lemma FourParts(a: string, b: string, c: string, d: string)
    requires '/' !in a && '/' !in b && '/' !in c && '/' in d
    ensures CredentialParts(a + "/" + (b + "/" + (c + "/" + d))) == Some((a, b, c))
  {
    hide SplitOnce;
    SplitOnceAt('/', a, b + "/" + (c + "/" + d));
    SplitOnceAt('/', b, c + "/" + d);
    SplitOnceAt('/', c, d);
  }

  /** One field of the header, as `ReadField` sees it. */
  lemma FieldRead(fields: Fields, v: string)
    requires v != "" && !IsSpace(v[|v| - 1])
    ensures ReadField(fields, "Credential=" + v) == fields.(credential := Some(v))
    ensures ReadField(fields, " SignedHeaders=" + v) == fields.(signedHeaders := Some(v))
    ensures ReadField(fields, " Signature=" + v) == fields.(signature := Some(v))
  {
    hide Trim;
    var a, b, c := "Credential=" + v, "SignedHeaders=" + v, "Signature=" + v;
    TrimOf(a);
    TrimOf(b);
    TrimOf(c);
    assert " SignedHeaders=" + v == " " + b && " Signature=" + v == " " + c;
    StripPrefixed("Credential=", v);
    StripPrefixed("SignedHeaders=", v);
    StripPrefixed("Signature=", v);
    assert b[0] == 'S' && c[0] == 'S' && c[4] == 'a';
    assert "SignedHeaders="[4] == 'e';
  }

  lemma LoweredNames(names: seq<string>)
    requires forall i :: 0 <= i < |names| ==> Token(names[i])
    ensures LowerAll(names) == names
  {
  }

  lemma ParseOfPrint(c: Credentials, names: seq<string>, signature: string)
    requires Field(c.accessKey) && Field(c.date) && Field(c.region) && NameList(names)
    requires signature != "" && IsHexText(signature)
    ensures ParseAuthorization(PrintAuthorization(c, names, signature))
         == Some(ParsedAuth(c.accessKey, c.date, c.region, names, signature))
  {
    hide Split, Join, ReadField, CredentialParts, Scope, Token, Sort, StringLeq, IsHexText, FromFields;
    var credential, list := c.accessKey + "/" + Scope(c.date, c.region), Join(names, ";");
    CredentialOf(c);
    JoinedNames(names);
    HexIsPlain(signature);
    PrintedFields(credential, list, signature);
    assert PrintAuthorization(c, names, signature) == PrintFields(credential, list, signature);
    FieldsParsed(c, names, signature);
  }

  function PrintFields(credential: string, list: string, signature: string): string {
    "AWS4-HMAC-SHA256 Credential=" + credential + ", SignedHeaders=" + list + ", Signature=" + signature
  }

  lemma PrintedHeader(credential: string, list: string, signature: string)
    ensures PrintFields(credential, list, signature)
      == "AWS4-HMAC-SHA256 " + ("Credential=" + credential + "," + (" SignedHeaders=" + list + "," + (" Signature=" + signature)))
  {
    assert "AWS4-HMAC-SHA256 Credential=" == "AWS4-HMAC-SHA256 " + "Credential=";
    assert ", SignedHeaders=" == "," + " SignedHeaders=" && ", Signature=" == "," + " Signature=";
    Reassociate("AWS4-HMAC-SHA256 ", "Credential=", credential, ",", " SignedHeaders=", list, " Signature=", signature);
  }

  lemma Reassociate(a: string, b: string, x: string, s: string, c: string, y: string, d: string, z: string)
    ensures a + b + x + (s + c) + y + (s + d) + z == a + (b + x + s + (c + y + s + (d + z)))
  {
  }

  /** The three fields come back out of the header, whatever they hold besides commas and outer white space. */
  lemma PrintedFields(credential: string, list: string, signature: string)
    requires ',' !in credential && ',' !in list && ',' !in signature
    requires credential != "" && !IsSpace(credential[|credential| - 1])
    requires list != "" && !IsSpace(list[|list| - 1])
    requires signature != "" && !IsSpace(signature[|signature| - 1])
    ensures ParseAuthorization(PrintFields(credential, list, signature))
         == FromFields(Fields(Some(credential), Some(list), Some(signature)))
  {
    hide Split, ReadField, ReadFields, FromFields, IsSpace, StripPrefix;
    var p0, p1, p2 := "Credential=" + credential, " SignedHeaders=" + list, " Signature=" + signature;
    var rest := p0 + "," + (p1 + "," + p2);
    PrintedHeader(credential, list, signature);
    StripPrefixed("AWS4-HMAC-SHA256 ", rest);
    assert ',' !in p0 && ',' !in p1 && ',' !in p2;
    ThreeParts(p0, p1, p2);
    var f0 := Fields(None, None, None);
    FieldRead(f0, credential);
    var f1 := f0.(credential := Some(credential));
    FieldRead(f1, list);
    var f2 := f1.(signedHeaders := Some(list));
    FieldRead(f2, signature);
  }

  lemma HexIsPlain(s: string)
    requires s != "" && IsHexText(s)
    ensures ',' !in s && !IsSpace(s[|s| - 1])
  {
  }

  lemma FieldsParsed(c: Credentials, names: seq<string>, signature: string)
    requires Field(c.accessKey) && Field(c.date) && Field(c.region) && NameList(names)
    ensures FromFields(Fields(Some(c.accessKey + "/" + Scope(c.date, c.region)), Some(Join(names, ";")), Some(signature)))
         == Some(ParsedAuth(c.accessKey, c.date, c.region, names, signature))
  {
    hide Split, Join, CredentialParts, Scope, Token, Sort, StringLeq;
    CredentialOf(c);
    JoinedNames(names);
    SplitOfJoin(names, ';');
    LoweredNames(names);
    StringsAreOrdered();
    SortOfSorted(names, StringLeq);
  }

  lemma ThreeParts(a: string, b: string, c: string)
    requires ',' !in a && ',' !in b && ',' !in c
    ensures Split(a + "," + (b + "," + c), ',') == [a, b, c]
    ensures ReadFields([a, b, c]) == ReadField(ReadField(ReadField(Fields(None, None, None), a), b), c)
  {
    hide ReadField, SplitOnce;
    assert "," == [','];
    SplitOnceAt(',', a, b + "," + c);
    SplitOnceAt(',', b, c);
    assert Split(c, ',') == [c];
    assert Split(b + "," + c, ',') == [b] + Split(c, ',');
    assert Split(a + "," + (b + "," + c), ',') == [a] + Split(b + "," + c, ',');
    assert [a, b, c][..2] == [a, b] && [a, b][..1] == [a] && [a][..0] == [];
    assert ReadFields([a]) == ReadField(ReadFields([]), a);
    assert ReadFields([a, b]) == ReadField(ReadFields([a]), b);
  }

  // ---- Completeness ----

  lemma {:induction false} JoinIsVisible(parts: seq<string>, separator: string)
    requires Visible(separator) && forall i :: 0 <= i < |parts| ==> Visible(parts[i])
    ensures Visible(Join(parts, separator))
  {
    if |parts| > 1 {
      JoinIsVisible(parts[1..], separator);
    }
  }

  /** The printed header is one the HTTP library accepts. */
  lemma AuthorizationIsVisible(c: Credentials, names: seq<string>, signature: string)
    requires Field(c.accessKey) && Field(c.date) && Field(c.region) && IsHexText(signature)
    requires forall i :: 0 <= i < |names| ==> Token(names[i])
    ensures Visible(PrintAuthorization(c, names, signature))
  {
    hide Join;
    JoinIsVisible(names, ";");
    var credential := c.accessKey + "/" + Scope(c.date, c.region);
    assert Visible(credential);
    assert Visible("AWS4-HMAC-SHA256 Credential=" + credential + ", SignedHeaders=");
  }

  lemma SignedNamesList(sg: Signing, r: Request, c: Credentials, order: seq<string>)
    requires multiset(order) == multiset(Stamp(sg, r, c).Keys)
    requires forall name :: name in Stamp(sg, r, c) ==> Token(name)
    ensures NameList(SignedNames(order))
    ensures forall i :: 0 <= i < |SignedNames(order)| ==> SignedNames(order)[i] in Stamp(sg, r, c)
  {
    hide Token, StringLeq, Sort;
    var keys := Stamp(sg, r, c).Keys;
    forall i | 0 <= i < |order|
      ensures Token(order[i])
    {
      assert order[i] in multiset(order);
    }
    LoweredNames(order);
    StringsAreOrdered();
    SortIsSorted(order, StringLeq);
    var names := SignedNames(order);
    forall i | 0 <= i < |names|
      ensures names[i] in Stamp(sg, r, c)
    {
      assert names[i] in multiset(names);
    }
    assert "x-amz-date" in multiset(keys);
    assert "x-amz-date" in multiset(names);
  }

  /** Adding the authorization header does not change the lines of the headers signed before it. */
  lemma {:induction false} OtherLines(h: Headers, value: string, names: seq<string>)
    requires forall i :: 0 <= i < |names| ==> names[i] != "authorization"
    ensures HeaderLines(h["authorization" := value], names) == HeaderLines(h, names)
  {
    if names != [] {
      OtherLines(h, value, names[1..]);
    }
  }

  lemma SignatureIsHex(sg: Signing, r: Request, c: Credentials, order: seq<string>)
    requires sg.Lawful()
    ensures SignatureOf(sg, r, c, order) != "" && IsHexText(SignatureOf(sg, r, c, order))
  {
  }

  lemma StampedPayload(sg: Signing, r: Request, c: Credentials, order: seq<string>)
    requires sg.Lawful()
    ensures PayloadHash(sg, Sign(sg, r, c, order)) == Fine(sg.sha256Hex(r.body))
  {
    hide AuthorizationOf;
    var hash := sg.sha256Hex(r.body);
    assert IsHexText(hash) && |hash| == 64;
    assert hash[0] != "STREAMING-"[0];
    assert Visible(hash);
  }

  /**
   Completeness: every request signed by the signing procedure with the configured keys, and received
   within 900 seconds of its timestamp, is accepted.
   */
  lemma SignedRequestsAreAccepted(sg: Signing, r: Request, c: Credentials, order: seq<string>, cfg: S3Config, now: int)
    requires sg.Lawful() && Signable(sg, r, c, order)
    requires c.accessKey == cfg.accessKey && c.secretKey == cfg.secretKey
    requires sg.parseTime(c.amzDate).Some? && -901000 < now - 1000 * sg.parseTime(c.amzDate).value < 901000
    ensures Verify(sg, Sign(sg, r, c, order), cfg, now) == Fine(())
  {
    hide CanonicalUri, CanonicalQuery, ParseAuthorization, PrintAuthorization, SignedNames, PayloadHash, SigningKey, StringToSign, HeaderLine, Token, IsHexText;
    var names, signature := SignedNames(order), SignatureOf(sg, r, c, order);
    SignedNamesList(sg, r, c, order);
    SignatureIsHex(sg, r, c, order);
    AuthorizationIsVisible(c, names, signature);
    ParseOfPrint(c, names, signature);
    OtherLines(Stamp(sg, r, c), AuthorizationOf(sg, r, c, order), names);
    StampedPayload(sg, r, c, order);
    SkewInNumbers(now, sg.parseTime(c.amzDate).value);
  }

  // ---- Binding ----

  /** These two texts do not collide under a digest. */
  predicate Apart(digest: string -> string, x: string, y: string) {
    digest(x) == digest(y) ==> x == y
  }

  lemma VisibleHasNoNewline(s: string)
    requires Visible(s)
    ensures '\n' !in s
  {
  }

  /** Equal strings to sign, over one credential scope, sign the same time and the same canonical digest. */
  lemma StringToSignBinds(sg: Signing, amz1: string, amz2: string, date: string, region: string, canonical1: string, canonical2: string)
    requires Visible(amz1) && Visible(amz2)
    requires StringToSign(sg, amz1, date, region, canonical1) == StringToSign(sg, amz2, date, region, canonical2)
    ensures amz1 == amz2 && sg.sha256Hex(canonical1) == sg.sha256Hex(canonical2)
  {
    hide Scope;
    var scope := Scope(date, region);
    var rest1, rest2 := scope + "\n" + sg.sha256Hex(canonical1), scope + "\n" + sg.sha256Hex(canonical2);
    var p := "AWS4-HMAC-SHA256\n";
    assert (p + (amz1 + "\n" + rest1))[|p|..] == amz1 + "\n" + rest1;
    assert (p + (amz2 + "\n" + rest2))[|p|..] == amz2 + "\n" + rest2;
    VisibleHasNoNewline(amz1);
    VisibleHasNoNewline(amz2);
    SplitIsUnique('\n', amz1, rest1, amz2, rest2);
    assert rest1[|scope + "\n"|..] == sg.sha256Hex(canonical1) && rest2[|scope + "\n"|..] == sg.sha256Hex(canonical2);
  }

  lemma {:induction false} JoinHasNo(parts: seq<string>, separator: string, c: char)
    requires c !in separator && forall i :: 0 <= i < |parts| ==> c !in parts[i]
    ensures c !in Join(parts, separator)
  {
    if |parts| > 1 {
      JoinHasNo(parts[1..], separator, c);
    }
  }

  lemma CanonicalPartsHaveNoNewline(path: string, query: string)
    ensures '\n' !in CanonicalUri(path) && '\n' !in CanonicalQuery(query)
  {
    hide Escape, Segments, Sort, QueryPairs, PairLeq, Join;
    var segments := EscapeAll(Segments(path));
    forall i | 0 <= i < |segments|
      ensures '\n' !in segments[i]
    {
      EscapedIsPlain(Segments(path)[i]);
    }
    JoinHasNo(segments, "/", '\n');
    var pairs := Sort(QueryPairs(query), PairLeq);
    var rendered := Render(pairs);
    forall i | 0 <= i < |rendered|
      ensures '\n' !in rendered[i]
    {
      EscapedIsPlain(pairs[i].0);
      EscapedIsPlain(pairs[i].1);
    }
    JoinHasNo(rendered, "&", '\n');
  }

  /** A canonical request can be read in one way only. */
  lemma CanonicalRequestBinds(a: Request, b: Request, names: seq<string>, payloadA: string, payloadB: string)
    requires '\n' !in a.verb && '\n' !in b.verb && '\n' !in payloadA && '\n' !in payloadB
    requires CanonicalRequest(a, names, payloadA) == CanonicalRequest(b, names, payloadB)
    ensures a.verb == b.verb && payloadA == payloadB
    ensures CanonicalUri(a.path) == CanonicalUri(b.path)
    ensures CanonicalQuery(a.query) == CanonicalQuery(b.query)
    ensures CanonicalHeaders(a.headers, names) == CanonicalHeaders(b.headers, names)
  {
    hide CanonicalUri, CanonicalQuery, CanonicalHeaders, Join;
    CanonicalPartsHaveNoNewline(a.path, a.query);
    CanonicalPartsHaveNoNewline(b.path, b.query);
    var list := Join(names, ";");
    var ha, hb := CanonicalHeaders(a.headers, names), CanonicalHeaders(b.headers, names);
    var a3, b3 := ha + "\n" + list + "\n" + payloadA, hb + "\n" + list + "\n" + payloadB;
    var a2, b2 := CanonicalQuery(a.query) + "\n" + a3, CanonicalQuery(b.query) + "\n" + b3;
    SplitIsUnique('\n', a.verb, CanonicalUri(a.path) + "\n" + a2, b.verb, CanonicalUri(b.path) + "\n" + b2);
    SplitIsUnique('\n', CanonicalUri(a.path), a2, CanonicalUri(b.path), b2);
    SplitIsUnique('\n', CanonicalQuery(a.query), a3, CanonicalQuery(b.query), b3);
    SplitLastIsUnique('\n', ha + "\n" + list, payloadA, hb + "\n" + list, payloadB);
    assert |ha| == |hb|;
    assert (ha + "\n" + list)[..|ha|] == ha && (hb + "\n" + list)[..|hb|] == hb;
  }

  /** What acceptance says about a request carrying a given authorization. */
  lemma AcceptanceMeans(sg: Signing, r: Request, cfg: S3Config, now: int)
    requires Verify(sg, r, cfg, now).Fine?
    ensures HeaderText(r.headers, "authorization").Some? && HeaderText(r.headers, "x-amz-date").Some?
    ensures ParseAuthorization(r.headers["authorization"]).Some? && PayloadHash(sg, r).Fine?
    ensures var auth := ParseAuthorization(r.headers["authorization"]).value;
            Signature(sg, cfg.secretKey, r.headers["x-amz-date"], auth.date, auth.region,
                      CanonicalRequest(r, auth.signedHeaders, PayloadHash(sg, r).value)) == auth.signature
  {
    hide ParseAuthorization, Signature, CanonicalRequest, PayloadHash;
  }

  lemma PayloadIsOneLine(sg: Signing, r: Request)
    requires sg.Lawful() && PayloadHash(sg, r).Fine?
    ensures var payload := PayloadHash(sg, r).value;
            '\n' !in payload && (payload == sg.sha256Hex(r.body) || (payload == "UNSIGNED-PAYLOAD" && |payload| == 16))
  {
  }

  /**
   Binding: a request accepted under the authorization header of a signed request has the signed verb,
   timestamp, canonical path, canonical query, signed header lines and body, unless it exhibits a digest
   collision.
   */
  lemma AcceptedMeansSigned(sg: Signing, signed: Request, c: Credentials, order: seq<string>, r: Request, cfg: S3Config, now: int)
    requires sg.Lawful() && Signable(sg, signed, c, order) && c.secretKey == cfg.secretKey
    requires '\n' !in signed.verb && '\n' !in r.verb
    requires "authorization" in r.headers && r.headers["authorization"] == AuthorizationOf(sg, signed, c, order)
    requires Verify(sg, r, cfg, now).Fine?
    requires var names := SignedNames(order);
             var payload := PayloadHash(sg, r);
             var amzDate := HeaderText(r.headers, "x-amz-date");
             payload.Fine? && amzDate.Some? ==>
               var mine := CanonicalRequest(signed.(headers := Stamp(sg, signed, c)), names, sg.sha256Hex(signed.body));
               var theirs := CanonicalRequest(r, names, payload.value);
               && Apart(sg.sha256Hex, mine, theirs)
               && Apart(sg.sha256Hex, signed.body, r.body)
               && Apart(x => sg.hmac(SigningKey(sg, c.secretKey, c.date, c.region), x),
                        StringToSign(sg, c.amzDate, c.date, c.region, mine),
                        StringToSign(sg, amzDate.value, c.date, c.region, theirs))
    ensures r.verb == signed.verb && r.body == signed.body && r.headers["x-amz-date"] == c.amzDate
    ensures CanonicalUri(r.path) == CanonicalUri(signed.path)
    ensures CanonicalQuery(r.query) == CanonicalQuery(signed.query)
    ensures CanonicalHeaders(r.headers, SignedNames(order)) == CanonicalHeaders(Stamp(sg, signed, c), SignedNames(order))
  {
    hide CanonicalUri, CanonicalQuery, CanonicalHeaders, CanonicalRequest, ParseAuthorization, SignedNames, PayloadHash,
      StringToSign, SigningKey, Verify, IsHexText, Token, Stamp;
    AcceptanceMeans(sg, r, cfg, now);
    PayloadIsOneLine(sg, r);
    SignatureIsHex(sg, signed, c, order);
    SignedNamesList(sg, signed, c, order);
    var names := SignedNames(order);
    ParseOfPrint(c, names, SignatureOf(sg, signed, c, order));
    var stamped := signed.(headers := Stamp(sg, signed, c));
    var mine, theirs := CanonicalRequest(stamped, names, sg.sha256Hex(signed.body)), CanonicalRequest(r, names, PayloadHash(sg, r).value);
    StringToSignBinds(sg, c.amzDate, r.headers["x-amz-date"], c.date, c.region, mine, theirs);
    HexHasNoNewline(sg.sha256Hex(signed.body));
    CanonicalRequestBinds(stamped, r, names, sg.sha256Hex(signed.body), PayloadHash(sg, r).value);
  }

  lemma HexHasNoNewline(s: string)
    requires IsHexText(s)
    ensures '\n' !in s
  {
  }
}
