/** SigV4 canonical URIs and query strings (s3/auth.rs). */
module Canonical {
  import opened Text
  import opened Percent
  import opened Sorting

  /** Path segments and query parts are encoded with '/' as an escape. */
  function Escape(s: string): string {
    Encode(s, "")
  }

  lemma EscapedIsPlain(s: string)
    ensures forall c :: c in Escape(s) ==> IsUnreserved(c) || c == '%'
  {
    EncodedCharacters(s, "");
  }

  // ---- canonical_uri ----

  function Segments(path: string): seq<string> {
    DecodeAll(Split(path, '/'))
  }

  function DecodeAll(parts: seq<string>): (r: seq<string>)
    ensures |r| == |parts|
    ensures forall i :: 0 <= i < |r| ==> r[i] == DecodeOrOriginal(parts[i])
  {
    if parts == [] then [] else [DecodeOrOriginal(parts[0])] + DecodeAll(parts[1..])
  }

  function EscapeAll(parts: seq<string>): (r: seq<string>)
    ensures |r| == |parts|
    ensures forall i :: 0 <= i < |r| ==> r[i] == Escape(parts[i])
  {
    if parts == [] then [] else [Escape(parts[0])] + EscapeAll(parts[1..])
  }

  function CanonicalUri(path: string): string {
    if path == "" then "/" else Join(EscapeAll(Segments(path)), "/")
  }

  lemma SegmentsAreUtf8(path: string)
    requires Utf8(path)
    ensures forall i :: 0 <= i < |Segments(path)| ==> Utf8(Segments(path)[i])
  {
    hide Utf8, Decode;
    SplitPiecesAreUtf8(path, '/');
    var parts := Split(path, '/');
    forall i | 0 <= i < |parts|
      ensures Utf8(DecodeOrOriginal(parts[i]))
    {
      assert parts[i] in parts;
      DecodeOrOriginalIsUtf8(parts[i]);
    }
  }

  /** The canonical path holds exactly the decoded segments. */
  lemma SegmentsOfCanonicalUri(path: string)
    requires Utf8(path) && path != ""
    ensures Segments(CanonicalUri(path)) == Segments(path)
  {
    hide Utf8, Decode, Encode, DecodeOrOriginal, Split, Join;
    var segments := Segments(path);
    var escaped := EscapeAll(segments);
    SegmentsAreUtf8(path);
    forall p | p in escaped
      ensures '/' !in p
    {
      var i :| 0 <= i < |escaped| && escaped[i] == p;
      EscapedIsPlain(segments[i]);
    }
    SplitOfJoin(escaped, '/');
    forall i | 0 <= i < |segments|
      ensures DecodeAll(escaped)[i] == segments[i]
    {
      DecodeOrOriginalOfEncode(segments[i], "");
    }
    assert DecodeAll(escaped) == segments;
  }

  lemma CanonicalUriIsNotEmpty(path: string)
    ensures CanonicalUri(path) != ""
  {
  }

  /** The empty path stands for the root. */
  function Rooted(path: string): string {
    if path == "" then "/" else path
  }

  lemma RootIsCanonical()
    ensures CanonicalUri("/") == "/"
  {
  }

  /** Canonicalising a path twice is canonicalising it once. */
  lemma CanonicalUriIsIdempotent(path: string)
    requires Utf8(path)
    ensures CanonicalUri(CanonicalUri(path)) == CanonicalUri(path)
  {
    CanonicalUriIsNotEmpty(path);
    if path == "" {
      RootIsCanonical();
    } else {
      SegmentsOfCanonicalUri(path);
    }
  }

  /** Two paths have one canonical form exactly when their decoded segments, the empty path's being the root's, are the same. */
  lemma CanonicalUriIsComplete(p: string, q: string)
    requires Utf8(p) && Utf8(q)
    ensures CanonicalUri(p) == CanonicalUri(q) <==> Segments(Rooted(p)) == Segments(Rooted(q))
  {
    hide Segments, Utf8;
    RootIsCanonical();
    RootIsUtf8();
    SegmentsOfCanonicalUri(Rooted(p));
    SegmentsOfCanonicalUri(Rooted(q));
  }

  lemma RootIsUtf8()
    ensures Utf8("/")
  {
  }

  /** The canonical path, segment by segment: each decoded, then encoded in full, in the order of the path. */
  lemma CanonicalSegments(path: string)
    ensures CanonicalUri("") == "/"
    ensures path != "" ==>
      var parts, canonical := Split(path, '/'), Split(CanonicalUri(path), '/');
      |canonical| == |parts| && forall i :: 0 <= i < |parts| ==> canonical[i] == Encode(DecodeOrOriginal(parts[i]), "")
  {
    hide Encode, DecodeOrOriginal, Split, Join;
    if path != "" {
      var escaped := EscapeAll(Segments(path));
      forall p | p in escaped
        ensures '/' !in p
      {
        var i :| 0 <= i < |escaped| && escaped[i] == p;
        EscapedIsPlain(Segments(path)[i]);
      }
      SplitOfJoin(escaped, '/');
    }
  }

  // ---- canonical_foundstring ----

  type Pair = (string, string)

  function PairOf(piece: string): Pair {
    match SplitOnce(piece, '=')
    case None => (DecodeOrOriginal(piece), DecodeOrOriginal(""))
    case Some((k, v)) => (DecodeOrOriginal(k), DecodeOrOriginal(v))
  }

  /** Empty pieces are skipped. */
  function PiecePairs(piece: string): seq<Pair> {
    if piece == "" then [] else [PairOf(piece)]
  }

  function Pairs(pieces: seq<string>): seq<Pair> {
    if pieces == [] then [] else PiecePairs(pieces[0]) + Pairs(pieces[1..])
  }

  function QueryPairs(query: string): seq<Pair> {
    if query == "" then [] else Pairs(Split(query, '&'))
  }

  /** A query is read piece by piece. */
  lemma QueriesAppend(p: string, q: string)
    ensures QueryPairs("") == [] && QueryPairs(p + "&" + q) == QueryPairs(p) + QueryPairs(q)
  {
    hide Split, PairOf;
    SplitAppend(p, '&', q);
    PairsAppend(Split(p, '&'), Split(q, '&'));
    assert Pairs(Split("", '&')) == [] by { NoPairs(); }
  }

  lemma NoPairs()
    ensures Pairs(Split("", '&')) == []
  {
    assert Split("", '&') == [""];
    assert Pairs([""]) == PiecePairs("") + Pairs([""][1..]);
  }

  /** A piece is a key and a value, separated by its first equals sign; without one the value is empty. */
  lemma OnePiece(key: string, value: string)
    requires '=' !in key && '&' !in key && '&' !in value
    ensures QueryPairs(key + "=" + value) == [(DecodeOrOriginal(key), DecodeOrOriginal(value))]
    ensures key != "" ==> QueryPairs(key) == [(DecodeOrOriginal(key), "")]
  {
    hide SplitOnce, DecodeOrOriginal;
    var piece := key + "=" + value;
    SplitOnceAt('=', key, value);
    assert SplitOnce(piece, '&').None? && SplitOnce(key, '&').None? && SplitOnce(key, '=').None?;
    assert Pairs([piece]) == PiecePairs(piece) + Pairs([piece][1..]);
    assert Pairs([key]) == PiecePairs(key) + Pairs([key][1..]);
    EmptyDecodes();
  }

  lemma EmptyDecodes()
    ensures DecodeOrOriginal("") == ""
  {
  }

  function Render(pairs: seq<Pair>): (r: seq<string>)
    ensures |r| == |pairs|
    ensures forall i :: 0 <= i < |r| ==> r[i] == Escape(pairs[i].0) + "=" + Escape(pairs[i].1)
  {
    if pairs == [] then [] else [Escape(pairs[0].0) + "=" + Escape(pairs[0].1)] + Render(pairs[1..])
  }

  function CanonicalQuery(query: string): string {
    Join(Render(Sort(QueryPairs(query), PairLeq)), "&")
  }

  /** The canonical query, pair by pair: each encoded in full, and all of them in the byte order of keys, then of values. */
  lemma CanonicalPairs(query: string)
    ensures QueryPairs(query) == [] ==> CanonicalQuery(query) == ""
    ensures QueryPairs(query) != [] ==>
            var pieces := Split(CanonicalQuery(query), '&');
            exists pairs: seq<Pair> ::
              && multiset(pairs) == multiset(QueryPairs(query)) && |pieces| == |pairs|
              && (forall i :: 0 <= i < |pairs| ==> pieces[i] == Encode(pairs[i].0, "") + "=" + Encode(pairs[i].1, ""))
              && (forall i, j :: 0 <= i < j < |pairs| ==> InOrder(pairs[i], pairs[j]))
  {
    hide Encode, Split, Join, QueryPairs, Sort, PairLeq, InOrder, Render;
    var found := QueryPairs(query);
    var pairs := Sort(found, PairLeq);
    PairsAreOrdered();
    SortIsSorted(found, PairLeq);
    SameLength(pairs, found);
    forall i, j | 0 <= i < j < |pairs|
      ensures InOrder(pairs[i], pairs[j])
    {
      PairsInOrder(found, i, j);
    }
    if found != [] {
      RenderedSplits(pairs);
    } else {
      assert Render(pairs) == [];
      NoText();
    }
  }

  lemma RenderedSplits(pairs: seq<Pair>)
    requires pairs != []
    ensures Split(Join(Render(pairs), "&"), '&') == Render(pairs)
  {
    hide Encode, Split, Join;
    var rendered := Render(pairs);
    forall p | p in rendered
      ensures '&' !in p
    {
      var i :| 0 <= i < |rendered| && rendered[i] == p;
      EscapedIsPlain(pairs[i].0);
      EscapedIsPlain(pairs[i].1);
    }
    SplitOfJoin(rendered, '&');
  }

  lemma NoText()
    ensures Join([], "&") == ""
  {
  }

  ghost predicate InOrder(p: Pair, q: Pair) {
    if p.0 == q.0 then Precedes(p.1, q.1) else Precedes(p.0, q.0)
  }

  lemma PairsInOrder(pairs: seq<Pair>, i: nat, j: nat)
    requires i < j < |pairs|
    ensures j < |Sort(pairs, PairLeq)| && InOrder(Sort(pairs, PairLeq)[i], Sort(pairs, PairLeq)[j])
  {
    SortedPairs(pairs, i, j);
  }

  ghost predicate AllUtf8(pairs: seq<Pair>) {
    forall p :: p in multiset(pairs) ==> Utf8(p.0) && Utf8(p.1)
  }

  lemma PairIsUtf8(piece: string)
    requires Utf8(piece)
    ensures Utf8(PairOf(piece).0) && Utf8(PairOf(piece).1)
  {
    hide Decode, FirstLength;
    if SplitOnce(piece, '=').Some? {
      var (k, v) := SplitOnce(piece, '=').value;
      Utf8Splits(k, '=', v);
      DecodeOrOriginalIsUtf8(k);
      DecodeOrOriginalIsUtf8(v);
    } else {
      DecodeOrOriginalIsUtf8(piece);
      DecodeOrOriginalIsUtf8("");
    }
  }

  lemma {:induction false} PairsAreUtf8(pieces: seq<string>)
    requires forall p :: p in pieces ==> Utf8(p)
    ensures AllUtf8(Pairs(pieces))
  {
    hide PairOf, Utf8;
    if pieces != [] {
      assert pieces[0] in pieces;
      PairIsUtf8(pieces[0]);
      PairsAreUtf8(pieces[1..]);
    }
  }

  lemma QueryPairsAreUtf8(query: string)
    requires Utf8(query)
    ensures AllUtf8(QueryPairs(query))
  {
    hide Utf8;
    if query != "" {
      SplitPiecesAreUtf8(query, '&');
      PairsAreUtf8(Split(query, '&'));
    }
  }

  lemma RenderedPair(p: Pair)
    requires Utf8(p.0) && Utf8(p.1)
    ensures var piece := Escape(p.0) + "=" + Escape(p.1);
            piece != "" && '&' !in piece && PairOf(piece) == p
  {
    hide Encode, Decode, Utf8, DecodeOrOriginal, SplitOnce;
    EscapedIsPlain(p.0);
    EscapedIsPlain(p.1);
    SplitOnceAt('=', Escape(p.0), Escape(p.1));
    DecodeOrOriginalOfEncode(p.0, "");
    DecodeOrOriginalOfEncode(p.1, "");
  }

  lemma {:induction false} PairsOfRendered(pairs: seq<Pair>)
    requires forall p :: p in pairs ==> Utf8(p.0) && Utf8(p.1)
    ensures Pairs(Render(pairs)) == pairs
    ensures forall r :: r in Render(pairs) ==> '&' !in r && r != ""
  {
    hide Utf8, PairOf, Escape;
    if pairs != [] {
      assert pairs[0] in pairs;
      RenderedPair(pairs[0]);
      PairsOfRendered(pairs[1..]);
      assert Render(pairs)[1..] == Render(pairs[1..]);
      assert pairs == [pairs[0]] + pairs[1..];
    }
  }

  /** The canonical query holds exactly the decoded pairs, in sorted order. */
  lemma PairsOfCanonicalQuery(query: string)
    requires Utf8(query)
    ensures QueryPairs(CanonicalQuery(query)) == Sort(QueryPairs(query), PairLeq)
  {
    hide Utf8, Sort, PairLeq, QueryPairs, Split, Join;
    QueryPairsAreUtf8(query);
    PairsAreOrdered();
    var sorted := Sort(QueryPairs(query), PairLeq);
    SortIsSorted(QueryPairs(query), PairLeq);
    forall p | p in sorted
      ensures Utf8(p.0) && Utf8(p.1)
    {
      assert p in multiset(sorted);
    }
    PairsOfRendered(sorted);
    PairsOfJoined(sorted);
  }

  lemma PairsOfJoined(sorted: seq<Pair>)
    requires Pairs(Render(sorted)) == sorted && forall r :: r in Render(sorted) ==> '&' !in r && r != ""
    ensures QueryPairs(Join(Render(sorted), "&")) == sorted
  {
    hide Split, Pairs;
    if sorted != [] {
      SplitOfJoin(Render(sorted), '&');
      assert Render(sorted)[0] in Render(sorted);
      assert Join(Render(sorted), "&") != "";
    }
  }

  /** Canonicalising a query twice is canonicalising it once. */
  lemma CanonicalQueryIsIdempotent(query: string)
    requires Utf8(query)
    ensures CanonicalQuery(CanonicalQuery(query)) == CanonicalQuery(query)
  {
    hide Utf8, Sort, PairLeq, QueryPairs;
    PairsOfCanonicalQuery(query);
    PairsAreOrdered();
    SortIsSorted(QueryPairs(query), PairLeq);
    SortOfSorted(Sort(QueryPairs(query), PairLeq), PairLeq);
  }

  /** Two queries have one canonical form exactly when they carry the same decoded pairs, each as often. */
  lemma CanonicalQueryIsComplete(p: string, q: string)
    requires Utf8(p) && Utf8(q)
    ensures CanonicalQuery(p) == CanonicalQuery(q) <==> multiset(QueryPairs(p)) == multiset(QueryPairs(q))
  {
    hide Utf8, Sort, PairLeq, QueryPairs;
    PairsOfCanonicalQuery(p);
    PairsOfCanonicalQuery(q);
    PairsAreOrdered();
    SortForgetsOrder(QueryPairs(p), QueryPairs(q), PairLeq);
  }

  lemma {:induction false} PairsAppend(a: seq<string>, b: seq<string>)
    ensures Pairs(a + b) == Pairs(a) + Pairs(b)
  {
    hide PiecePairs;
    if a == [] {
      assert a + b == b;
    } else {
      PairsAppend(a[1..], b);
      assert (a + b)[0] == a[0] && (a + b)[1..] == a[1..] + b;
      var head, middle, end := PiecePairs(a[0]), Pairs(a[1..]), Pairs(b);
      assert head + (middle + end) == head + middle + end;
    }
  }

  /** Taking one piece out takes its pairs out. */
  lemma PairsWithout(b: seq<string>, i: nat)
    requires i < |b|
    ensures var rest := b[..i] + b[i + 1..];
            && multiset(b) == multiset(rest) + multiset{b[i]}
            && multiset(Pairs(b)) == multiset(Pairs(rest)) + multiset(PiecePairs(b[i]))
  {
    hide PiecePairs;
    PairsAppend(b[..i], b[i + 1..]);
    PairsAppend(b[..i], b[i..]);
    assert b == b[..i] + b[i..];
    assert b[i..] == [b[i]] + b[i + 1..];
  }

  lemma {:induction false} PairsOfPermutation(a: seq<string>, b: seq<string>)
    requires multiset(a) == multiset(b)
    ensures multiset(Pairs(a)) == multiset(Pairs(b))
    decreases a
  {
    hide PiecePairs;
    if a == [] {
      assert |multiset(b)| == 0;
      assert b == [];
    } else {
      assert a[0] in multiset(b);
      var i :| 0 <= i < |b| && b[i] == a[0];
      TailMultiset(a);
      PairsWithout(b, i);
      PairsOfPermutation(a[1..], b[..i] + b[i + 1..]);
    }
  }

  /** Permuting the '&'-separated parts of a query does not change its canonical form. */
  lemma PermutedQueries(p: string, q: string)
    requires multiset(Split(p, '&')) == multiset(Split(q, '&'))
    ensures CanonicalQuery(p) == CanonicalQuery(q)
  {
    hide Sort, PairLeq, PairOf;
    PairsOfPermutation(Split(p, '&'), Split(q, '&'));
    assert Split("", '&') == [""];
    assert Pairs([""]) == [] by { assert [""][1..] == []; }
    PairsAreOrdered();
    SortForgetsOrder(QueryPairs(p), QueryPairs(q), PairLeq);
  }
}
