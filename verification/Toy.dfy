/** Small concrete codecs and digests that satisfy the stated contracts, so the contracts are not empty. */
module Toy {
  import opened Base
  import opened Pipeline
  import opened Text
  import opened Percent
  import SigV4

  predicate AllZero(x: Bytes) {
    forall i :: 0 <= i < |x| ==> x[i] == 0
  }

  /** A run of zeros packs into its length; anything else is kept behind a marker. */
  function Pack(x: Bytes): Bytes {
    if 0 < |x| < 256 && AllZero(x) then [1, |x| as byte] else [0] + x
  }

  function Unpack(y: Bytes): Stream {
    if |y| == 2 && y[0] == 1 then Stream(seq(y[1] as nat, _ => 0), true)
    else if y != [] && y[0] == 0 then Stream(y[1..], true)
    else Stream([], false)
  }

  function AsText(x: Bytes): string {
    seq(|x|, i requires 0 <= i < |x| => (x[i] as int) as char)
  }

  function Codecs(): Primitives {
    Primitives(x => AsText(x),
               (x, _) => Some(Pack(x)), y => Unpack(y),
               (x, _) => Some(Pack(x)), y => Some(Unpack(y)),
               (_, k, _, x) => Some(k + x), (_, k, _, y) => if k <= y then Some(y[|k|..]) else None)
  }

  lemma UnpackOfPack(x: Bytes)
    ensures Unpack(Pack(x)) == Stream(x, true)
  {
  }

  lemma CodecsAreLawful()
    ensures Codecs().Lawful() && Codecs().Binding()
    ensures forall a, b :: Codecs().hash(a) == Codecs().hash(b) ==> a == b
  {
    forall x ensures Unpack(Pack(x)) == Stream(x, true) {
      UnpackOfPack(x);
    }
    forall a, b | AsText(a) == AsText(b)
      ensures a == b
    {
      assert forall i :: 0 <= i < |a| ==> AsText(a)[i] == (a[i] as int) as char;
      assert forall i :: 0 <= i < |b| ==> AsText(b)[i] == (b[i] as int) as char;
    }
  }

  /** They do compress: ten zeros are stored as three bytes, and flagged. */
  lemma CodecsCompress(c: CompressionConfig, opts: StoreOptions)
    requires opts.compress == Some(true) && opts.compressionAlgorithm == Some("gzip") && c.minSize <= 10
    ensures CompressStage(Codecs(), c, opts, seq(10, _ => 0)) == (true, [1, 1, 10])
  {
    var zeros: Bytes := seq(10, _ => 0);
    assert AllZero(zeros) && Pack(zeros) == [1, 10];
    assert [1 as byte] + [1, 10] == [1, 1, 10];
  }

  function LowHex(n: nat): char
    requires n < 16
  {
    "0123456789abcdef"[n]
  }

  function HexPair(c: char): (r: string)
    ensures |r| == 2 && SigV4.IsHexText(r)
  {
    [LowHex(c as int / 16 % 16), LowHex(c as int % 16)]
  }

  function HexOf(s: string): (r: string)
    ensures |r| == 2 * |s|
  {
    if s == "" then "" else HexPair(s[0]) + HexOf(s[1..])
  }

  lemma {:induction false} HexOfIsHexText(s: string)
    ensures SigV4.IsHexText(HexOf(s))
  {
    if s != "" {
      HexOfIsHexText(s[1..]);
    }
  }

  function Digests(): SigV4.Signing {
    SigV4.Signing(_ => seq(64, _ => '0'), (_, _) => seq(32, _ => 'k'), s => HexOf(s), _ => Some(0))
  }

  lemma HexPairIsInjective(c: char, d: char)
    requires c as int < 256 && d as int < 256 && HexPair(c) == HexPair(d)
    ensures c == d
  {
    hide LowHex;
    assert HexPair(c)[0] == HexPair(d)[0] && HexPair(c)[1] == HexPair(d)[1];
    LowHexIsInjective(c as int / 16, d as int / 16);
    LowHexIsInjective(c as int % 16, d as int % 16);
  }

  lemma LowHexIsInjective(m: nat, n: nat)
    requires m < 16 && n < 16 && LowHex(m) == LowHex(n)
    ensures m == n
  {
  }

  lemma {:induction false} HexIsInjective(a: string, b: string)
    requires Bytewise(a) && Bytewise(b) && HexOf(a) == HexOf(b)
    ensures a == b
  {
    hide HexPair;
    assert |HexOf(a)| == |HexOf(b)|;
    if a != "" {
      assert HexOf(a)[..2] == HexPair(a[0]) && HexOf(b)[..2] == HexPair(b[0]);
      HexPairIsInjective(a[0], b[0]);
      assert HexOf(a)[2..] == HexOf(a[1..]) && HexOf(b)[2..] == HexOf(b[1..]);
      HexIsInjective(a[1..], b[1..]);
      assert a == [a[0]] + a[1..] && b == [b[0]] + b[1..];
    }
  }

  lemma DigestsAreLawful()
    ensures Digests().Lawful()
  {
    forall a, b | Bytewise(a) && Bytewise(b) && HexOf(a) == HexOf(b)
      ensures a == b
    {
      HexIsInjective(a, b);
    }
    forall s
      ensures SigV4.IsHexText(HexOf(s))
    {
      HexOfIsHexText(s);
    }
  }

  lemma DateHeaderIsToken()
    ensures SigV4.Token("x-amz-date")
  {
    var name := "x-amz-date";
    assert forall i :: 0 <= i < |name| ==> LowerChar(name[i]) == name[i];
    assert Lower(name) == name;
  }

  lemma DigestHeaderIsToken()
    ensures SigV4.Token("x-amz-content-sha256")
  {
    var name := "x-amz-content-sha256";
    assert forall i :: 0 <= i < |name| ==> LowerChar(name[i]) == name[i];
    assert Lower(name) == name;
  }

  const SAMPLE := SigV4.Request("GET", "/bucket/file", "", map[], "")
  const CREDENTIALS := SigV4.Credentials("key", "secret", "region", "20240101", "20240101T000000Z")
  const ORDER := ["x-amz-date", "x-amz-content-sha256"]

  lemma TwoNames(a: string, b: string)
    requires a != b
    ensures multiset([a, b]) == multiset({a, b})
  {
  }

  lemma SampleFields()
    ensures SigV4.Field(CREDENTIALS.accessKey) && SigV4.Field(CREDENTIALS.date) && SigV4.Field(CREDENTIALS.region)
    ensures SigV4.Visible(CREDENTIALS.amzDate)
  {
  }

  lemma SampleIsSignable(sg: SigV4.Signing)
    ensures SigV4.Signable(sg, SAMPLE, CREDENTIALS, ORDER)
  {
    hide SigV4.Token, SigV4.Field, SigV4.Visible;
    var date, digest := "x-amz-date", "x-amz-content-sha256";
    DateHeaderIsToken();
    DigestHeaderIsToken();
    SampleFields();
    assert |date| != |digest|;
    TwoNames(date, digest);
    assert SigV4.Stamp(sg, SAMPLE, CREDENTIALS).Keys == {date, digest};
  }

  /** Some request can be signed, and is then accepted. */
  lemma SomeRequestIsAccepted(cfg: SigV4.S3Config)
    requires cfg == SigV4.S3Config("key", "secret")
    ensures SigV4.Signable(Digests(), SAMPLE, CREDENTIALS, ORDER)
    ensures SigV4.Verify(Digests(), SigV4.Sign(Digests(), SAMPLE, CREDENTIALS, ORDER), cfg, 0) == SigV4.Fine(())
  {
    hide SigV4.Token, SigV4.Verify, SigV4.Sign, SigV4.Signable, HexOf;
    DigestsAreLawful();
    SampleIsSignable(Digests());
    SigV4.SignedRequestsAreAccepted(Digests(), SAMPLE, CREDENTIALS, ORDER, cfg, 0);
  }
}
