/**
 The digest behind a `Qm...` deployment id: base58 decoding in place over a
 growing byte vector, and the sha2-256 multihash prefix.
 */
module Base58 {
  import opened Arith
  import opened Prelude
  import opened Digits
  import opened Abi

  /** The alphabet: 1-9, then A-Z without I and O, then a-z without l. */
  function Alphabet(d: nat): char
    requires d < 58
  {
    if d < 9 then ('1' as int + d) as char
    else if d < 17 then ('A' as int + d - 9) as char
    else if d < 22 then ('J' as int + d - 17) as char
    else if d < 33 then ('P' as int + d - 22) as char
    else if d < 44 then ('a' as int + d - 33) as char
    else ('m' as int + d - 44) as char
  }

  /** The digits and letters but 0, O, I and l, in the order of their codes. */
  lemma AlphabetExact(c: char)
    ensures (exists d :: 0 <= d < 58 && Alphabet(d) == c)
        <==> c !in {'0', 'O', 'I', 'l'} && ('0' <= c <= '9' || 'A' <= c <= 'Z' || 'a' <= c <= 'z')
    ensures forall d, e :: 0 <= d < e < 58 ==> Alphabet(d) < Alphabet(e)
  {
    if c !in {'0', 'O', 'I', 'l'} && ('0' <= c <= '9' || 'A' <= c <= 'Z' || 'a' <= c <= 'z') {
      var n := c as int;
      var d := if n <= '9' as int then n - '1' as int
               else if n <= 'H' as int then n - 'A' as int + 9
               else if n <= 'N' as int then n - 'J' as int + 17
               else if n <= 'Z' as int then n - 'P' as int + 22
               else if n <= 'k' as int then n - 'a' as int + 33
               else n - 'm' as int + 44;
      assert Alphabet(d) == c;
    }
  }

  /** The index of a character in the alphabet, searched from the front. */
  function PositionFrom(c: char, i: nat): (p: Option<nat>)
    requires i <= 58
    ensures p.Some? ==> i <= p.value < 58 && Alphabet(p.value) == c
    ensures p == None ==> forall k :: i <= k < 58 ==> Alphabet(k) != c
    decreases 58 - i
  {
    if i == 58 then None
    else if Alphabet(i) == c then Some(i)
    else PositionFrom(c, i + 1)
  }

  function Position(c: char): (p: Option<nat>)
    ensures p.Some? ==> p.value < 58 && Alphabet(p.value) == c
    ensures p == None ==> forall k :: 0 <= k < 58 ==> Alphabet(k) != c
  {
    PositionFrom(c, 0)
  }

  lemma AlphabetInjective(i: nat, j: nat)
    requires i < 58 && j < 58 && Alphabet(i) == Alphabet(j)
    ensures i == j
  {}

  lemma PositionOf(d: nat)
    requires d < 58
    ensures Position(Alphabet(d)) == Some(d)
  {
    AlphabetInjective(d, Position(Alphabet(d)).value);
  }

  predicate IsBase58(id: string) {
    forall i :: 0 <= i < |id| ==> Position(id[i]).Some?
  }

  function Values(id: string): (ds: seq<nat>)
    requires IsBase58(id)
    ensures |ds| == |id| && Digital(58, ds)
  {
    seq(|id|, i requires 0 <= i < |id| => Position(id[i]).value)
  }

  function Chars(ds: seq<nat>): (id: string)
    requires Digital(58, ds)
    ensures |id| == |ds|
  {
    seq(|ds|, i requires 0 <= i < |ds| => Alphabet(ds[i]))
  }

  lemma CharsValues(ds: seq<nat>)
    requires Digital(58, ds)
    ensures IsBase58(Chars(ds)) && Values(Chars(ds)) == ds
  {
    forall i | 0 <= i < |ds|
      ensures Position(Chars(ds)[i]) == Some(ds[i])
    {
      PositionOf(ds[i]);
    }
  }

  // ------------------------------------------------------------------
  // The in-place multiply
  // ------------------------------------------------------------------

  /** Multiplies the byte vector by 58 and adds a digit, in place from its end;
      what does not fit is left in the carry. */
  method Multiply(bytes: seq<Byte>, digit: nat) returns (out: seq<Byte>, carry: nat)
    requires digit < 58
    ensures |out| == |bytes| && carry < 58
    ensures Be(256, out) + carry * Pow(256, |bytes|) == Be(256, bytes) * 58 + digit
  {
    carry := digit;
    out := bytes;
    for i := |bytes| downto 0
      invariant |out| == |bytes| && out[..i] == bytes[..i] && carry < 58
      invariant Be(256, out[i..]) + carry * Pow(256, |bytes| - i) == Be(256, bytes[i..]) * 58 + digit
    {
      var v := out[i] * 58 + carry;
      InPlace(bytes, out, i, carry, digit);
      out := out[i := v % 256];
      carry := v / 256;
    }
    assert out[0..] == out && bytes[0..] == bytes;
  }

  /** One base58 character consumed: a vector in minimal form stays in minimal
      form. */
  method TimesAdd(bytes: seq<Byte>, digit: nat) returns (out: seq<Byte>)
    requires digit < 58 && (bytes != [] ==> bytes[0] != 0)
    ensures out == Minimal(256, Be(256, bytes) * 58 + digit)
  {
    hide Be, Pow, Minimal;
    var carry: nat;
    out, carry := Multiply(bytes, digit);
    Leading(bytes, out, carry, digit);
    while carry > 0
      invariant carry < 58
      invariant Be(256, out) + carry * Pow(256, |out|) == Be(256, bytes) * 58 + digit
      invariant carry == 0 && out != [] ==> out[0] != 0
    {
      PushFront(carry, out);
      out := [carry % 256] + out;
      carry := carry / 256;
    }
    MinimalUnique(256, out);
  }

  lemma InPlace(bytes: seq<Byte>, out: seq<Byte>, i: nat, carry: nat, digit: nat)
    requires i < |bytes| == |out| && out[i] == bytes[i]
    requires Be(256, out[i + 1..]) + carry * Pow(256, |bytes| - i - 1) == Be(256, bytes[i + 1..]) * 58 + digit
    ensures var v := out[i] * 58 + carry;
            Be(256, out[i := v % 256][i..]) + v / 256 * Pow(256, |bytes| - i) == Be(256, bytes[i..]) * 58 + digit
  {
    var v := out[i] * 58 + carry;
    TailStep(bytes[i], bytes[i + 1..], out[i + 1..], v, carry, digit);
    assert bytes[i..] == [bytes[i]] + bytes[i + 1..];
    assert out[i := v % 256][i..] == [v % 256] + out[i + 1..];
  }

  lemma TailStep(b: Byte, rest: seq<Byte>, done: seq<Byte>, v: nat, carry: nat, digit: nat)
    requires v == b * 58 + carry && |rest| == |done|
    requires Be(256, done) + carry * Pow(256, |rest|) == Be(256, rest) * 58 + digit
    ensures Be(256, [v % 256] + done) + v / 256 * Pow(256, |rest| + 1) == Be(256, [b] + rest) * 58 + digit
  {
    var p := Pow(256, |rest|);
    BeConcat(256, [v % 256], done);
    BeConcat(256, [b], rest);
    BeOne(256, v % 256);
    BeOne(256, b);
    TailAlgebra(v, b, carry, p);
  }

  lemma TailAlgebra(v: nat, b: nat, carry: nat, p: nat)
    requires v == b * 58 + carry
    ensures v % 256 * p + v / 256 * (256 * p) == b * p * 58 + carry * p
  {
    assert v % 256 * p + v / 256 * (256 * p) == (v % 256 + v / 256 * 256) * p;
    assert (b * 58 + carry) * p == b * p * 58 + carry * p;
  }

  lemma PushFront(carry: nat, out: seq<Byte>)
    requires carry < 256
    ensures Be(256, [carry % 256] + out) == Be(256, out) + carry * Pow(256, |out|)
  {
    hide Be, Pow;
    assert [carry % 256] == [carry];
    BeConcat(256, [carry], out);
    BeOne(256, carry);
  }

  /** Without a carry the leading byte stays nonzero. */
  lemma Leading(bytes: seq<Byte>, out: seq<Byte>, carry: nat, digit: nat)
    requires |out| == |bytes| && (bytes != [] ==> bytes[0] != 0)
    requires Be(256, out) + carry * Pow(256, |bytes|) == Be(256, bytes) * 58 + digit
    ensures carry == 0 && out != [] ==> out[0] != 0
  {
    if carry == 0 && out != [] {
      BeLeading(256, bytes);
      if out[0] == 0 {
        LeadingZero(out);
      }
    }
  }

  lemma LeadingZero(out: seq<Byte>)
    requires out != [] && out[0] == 0
    ensures Be(256, out) < Pow(256, |out| - 1)
  {
    assert out == [0] + out[1..];
    PushFront(0, out[1..]);
    BeBound(256, out[1..]);
  }

  // ------------------------------------------------------------------
  // The digest
  // ------------------------------------------------------------------

  function Zeros(n: nat): (zeros: seq<Byte>)
    ensures |zeros| == n && forall i :: 0 <= i < n ==> zeros[i] == 0
  {
    seq(n, _ => 0)
  }

  /** How many leading ones an id has. */
  function Ones(id: string): (n: nat)
    ensures n <= |id|
    ensures forall i :: 0 <= i < n ==> id[i] == '1'
    ensures n < |id| ==> id[n] != '1'
  {
    if id == "" || id[0] != '1' then 0 else 1 + Ones(id[1..])
  }

  /** Base58 decoding: one zero byte per leading one, then the minimal bytes. */
  function Decoded(id: string): seq<Byte>
    requires IsBase58(id)
  {
    Zeros(Ones(id)) + Minimal(256, Be(58, Values(id)))
  }

  /** The digest of a decoded id: a sha2-256 multihash without its prefix. */
  function DigestOf(out: seq<Byte>): Option<string> {
    if |out| == 34 && out[0] == 0x12 && out[1] == 0x20 then Some(HexText(out[2..])) else None
  }

  function DigestSpec(id: string): Option<string> {
    if IsBase58(id) then DigestOf(Decoded(id)) else None
  }

  lemma EmptyId()
    ensures Minimal(256, Be(58, Values(""))) == []
  {}

  method DeploymentDigest(id: string) returns (r: Option<string>)
    ensures r == DigestSpec(id)
  {
    hide Be, Minimal, Position, HexText;
    EmptyId();
    var bytes: seq<Byte> := [];
    for i := 0 to |id|
      invariant IsBase58(id[..i]) && bytes == Minimal(256, Be(58, Values(id[..i])))
    {
      var position := Position(id[i]);
      if position == None {
        assert !IsBase58(id);
        return None;
      }
      MinimalValue(256, Be(58, Values(id[..i])));
      bytes := TimesAdd(bytes, position.value);
      assert Values(id[..i + 1]) == Values(id[..i]) + [position.value];
      BeSnoc(58, Values(id[..i]), position.value);
    }
    assert id[..|id|] == id;
    var out := Zeros(Ones(id)) + bytes;
    if |out| == 34 && out[0] == 0x12 && out[1] == 0x20 {
      var text := HexEncode(out[2..]);
      return Some(text);
    }
    return None;
  }

  /** The base58 text of a byte string without leading zeros. */
  function Encode(bytes: seq<Byte>): string {
    Chars(Minimal(58, Be(256, bytes)))
  }

  function Multihash(digest: seq<Byte>): seq<Byte> {
    [0x12, 0x20] + digest
  }

  /** Encoding a byte string without leading zeros, then decoding, is identity. */
  lemma DecodeEncode(bytes: seq<Byte>)
    requires bytes != [] && bytes[0] != 0
    ensures IsBase58(Encode(bytes)) && Decoded(Encode(bytes)) == bytes
  {
    var v := Be(256, bytes);
    var ds := Minimal(58, v);
    CharsValues(ds);
    MinimalValue(58, v);
    MinimalUnique(256, bytes);
    BeLeading(256, bytes);
    PowPositive(256, |bytes| - 1);
    var id := Encode(bytes);
    assert ds[0] != 0;
    PositionOf(0);
    PositionOf(ds[0]);
    assert Ones(id) == 0;
  }

  /** The digest of an encoded multihash is its hash part. */
  lemma DigestInvertsEncoding(digest: seq<Byte>)
    requires |digest| == 32
    ensures DigestSpec(Encode(Multihash(digest))) == Some(HexText(digest))
  {
    DecodeEncode(Multihash(digest));
    assert Multihash(digest)[2..] == digest;
  }

  /** Nothing else has a digest: an id with one is the encoding of exactly the
      multihash whose hash part the digest spells. */
  lemma DigestOnlyOfEncodings(id: string)
    requires DigestSpec(id).Some?
    ensures |Decoded(id)| == 34
    ensures id == Encode(Multihash(Decoded(id)[2..])) && DigestSpec(id) == Some(HexText(Decoded(id)[2..]))
  {
    var out, ds := Decoded(id), Values(id);
    PositionOf(0);
    assert out == Minimal(256, Be(58, ds));
    MinimalUnique(58, ds);
    MinimalValue(256, Be(58, ds));
    assert out == Multihash(out[2..]);
    assert Chars(ds) == id;
  }

  /** Two different ids never share a digest. */
  lemma DigestInjective(a: string, b: string)
    requires DigestSpec(a).Some? && DigestSpec(a) == DigestSpec(b)
    ensures a == b
  {
    DigestOnlyOfEncodings(a);
    DigestOnlyOfEncodings(b);
    HexRoundTrip(Decoded(a)[2..]);
    HexRoundTrip(Decoded(b)[2..]);
  }
}
