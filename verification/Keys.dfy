/** Identity of a read, and the preimage of its cache key. */
module Keys {
  import opened Prelude
  import opened Text

  /** How a read is put on the wire. */
  datatype Wire = JsonRpc | HttpGet(query: seq<(string, string)>, json: bool, base: Option<string>)

  /** One read.  The label is documentation; the wire says how to ask. */
  datatype Descriptor = Descriptor(
    labelText: string, wire: Wire, methodName: string, block: string, to: string, calldata: string)

  const PREIMAGE_VERSION: string := "crossfoot-cache-v1"

  /** The exact byte string hashed into the cache key. */
  function KeyPreimage(chainId: nat, d: Descriptor): string {
    PREIMAGE_VERSION + "\n"
    + ("chain_id=" + Decimal(chainId) + "\n"
    + ("method=" + d.methodName + "\n"
    + ("block=" + Lower(d.block) + "\n"
    + ("to=" + Lower(d.to) + "\n"
    + ("calldata=" + Lower(d.calldata) + "\n" + "")))))
  }

  predicate OneLine(s: string) {
    forall i :: 0 <= i < |s| ==> s[i] != '\n'
  }

  predicate OneLineFields(d: Descriptor) {
    OneLine(d.methodName) && OneLine(d.block) && OneLine(d.to) && OneLine(d.calldata)
  }

  /** The first newline separates a one-line value from what follows it. */
  lemma LineSplit(name: string, a: string, rest: string, b: string, rest': string)
    requires OneLine(a) && OneLine(b) && name + a + "\n" + rest == name + b + "\n" + rest'
    ensures a == b && rest == rest'
  {
    var s := name + a + "\n" + rest;
    var n := |name|;
    assert forall k :: 0 <= k < |a| ==> s[n + k] == a[k] != '\n';
    assert forall k :: 0 <= k < |b| ==> s[n + k] == b[k] != '\n';
    assert s[n + |a|] == '\n' && s[n + |b|] == '\n';
    assert s[n..n + |a|] == a && s[n..n + |b|] == b;
    assert s[n + |a| + 1..] == rest && s[n + |b| + 1..] == rest';
  }

  lemma LowerOneLine(s: string)
    requires OneLine(s)
    ensures OneLine(Lower(s))
  {}

  lemma DecimalOneLine(n: nat)
    ensures OneLine(Decimal(n))
  {
    DecimalCanonical(n);
  }

  /** Two reads are the same read: chain and method exactly, the other fields up
      to letter case.  The label and the wire take no part. */
  predicate SameRead(chainId: nat, d: Descriptor, chainId': nat, d': Descriptor) {
    && chainId == chainId' && d.methodName == d'.methodName
    && Lower(d.block) == Lower(d'.block) && Lower(d.to) == Lower(d'.to) && Lower(d.calldata) == Lower(d'.calldata)
  }

  /** For one-line fields the preimage identifies the read exactly. */
  lemma PreimageIdentifies(chainId: nat, d: Descriptor, chainId': nat, d': Descriptor)
    requires OneLineFields(d) && OneLineFields(d')
    ensures KeyPreimage(chainId, d) == KeyPreimage(chainId', d') <==> SameRead(chainId, d, chainId', d')
  {
    hide Lower, Decimal;
    if KeyPreimage(chainId, d) == KeyPreimage(chainId', d') {
      DecimalOneLine(chainId);
      DecimalOneLine(chainId');
      LowerOneLine(d.block);
      LowerOneLine(d'.block);
      LowerOneLine(d.to);
      LowerOneLine(d'.to);
      LowerOneLine(d.calldata);
      LowerOneLine(d'.calldata);
      var c, c' := Tail("calldata=", Lower(d.calldata), ""), Tail("calldata=", Lower(d'.calldata), "");
      var t, t' := Tail("to=", Lower(d.to), c), Tail("to=", Lower(d'.to), c');
      var b, b' := Tail("block=", Lower(d.block), t), Tail("block=", Lower(d'.block), t');
      var m, m' := Tail("method=", d.methodName, b), Tail("method=", d'.methodName, b');
      Headed(chainId, d, m);
      Headed(chainId', d', m');
      LineSplit("chain_id=", Decimal(chainId), m, Decimal(chainId'), m');
      LineSplit("method=", d.methodName, b, d'.methodName, b');
      LineSplit("block=", Lower(d.block), t, Lower(d'.block), t');
      LineSplit("to=", Lower(d.to), c, Lower(d'.to), c');
      LineSplit("calldata=", Lower(d.calldata), "", Lower(d'.calldata), "");
      DecimalInjective(chainId, chainId');
    }
  }

  function Tail(name: string, value: string, rest: string): string {
    name + value + "\n" + rest
  }

  lemma Headed(chainId: nat, d: Descriptor, m: string)
    requires m == Tail("method=", d.methodName, Tail("block=", Lower(d.block), Tail("to=", Lower(d.to),
                       Tail("calldata=", Lower(d.calldata), ""))))
    ensures KeyPreimage(chainId, d)[|PREIMAGE_VERSION| + 1..] == Tail("chain_id=", Decimal(chainId), m)
  {
    hide Lower, Decimal;
    assert KeyPreimage(chainId, d) == PREIMAGE_VERSION + "\n" + Tail("chain_id=", Decimal(chainId), m);
  }

  // ------------------------------------------------------------------
  // Fields with newlines
  // ------------------------------------------------------------------

  const BLOCK_TAG: string := "\nblock="
  const TO_TAG: string := "\nto="
  const DATA_TAG: string := "\ncalldata="

  /** A newline and no other one. */
  predicate IsTag(tag: string) {
    tag != "" && tag[0] == '\n' && forall i :: 0 < i < |tag| ==> tag[i] != '\n'
  }

  predicate IsLower(s: string) {
    forall i :: 0 <= i < |s| ==> !('A' <= s[i] <= 'Z')
  }

  /** The preimage from the method on. */
  function Fields(m: string, b: string, t: string, c: string): string {
    m + BLOCK_TAG + (b + TO_TAG + (t + DATA_TAG + (c + "\n")))
  }

  /** No tag in a field can be taken for the tag that ends it or that starts it: a
      method may hold the block tag only before a capital letter. */
  ghost predicate Unambiguous(m: string, b: string, t: string, c: string) {
    && (forall i: nat :: i <= |m| && PartAt(m, i, BLOCK_TAG) ==> !IsLower(m[i + |BLOCK_TAG|..]))
    && !Contains(b, BLOCK_TAG) && !Contains(b, TO_TAG)
    && !Contains(t, TO_TAG) && !Contains(t, DATA_TAG)
    && !Contains(c, DATA_TAG)
  }

  /** A text with a tag in two places: the earlier place is inside the longer part. */
  lemma Cut(a: string, rest: string, a': string, rest': string, tag: string)
    requires IsTag(tag) && a + tag + rest == a' + tag + rest' && |a'| < |a|
    ensures PartAt(a, |a'|, tag) && rest' == a[|a'| + |tag|..] + tag + rest
  {
    var s, n, k := a + tag + rest, |a'|, |tag|;
    assert s[n..n + k] == tag by {
      assert s == a' + tag + rest';
    }
    assert s[|a|] == '\n';
    forall i | n < i < n + k
      ensures s[i] != '\n'
    {
      assert tag[i - n] == s[n..n + k][i - n] == s[i];
    }
    assert s[n..n + k] == a[n..n + k];
    assert rest' == (a' + tag + rest')[n + k..] == s[n + k..];
    assert s[n + k..] == a[n + k..] + tag + rest;
  }

  /** A tag found in a field that ends the text. */
  lemma LastField(c: string, a: string, rest: string, tag: string)
    requires IsTag(tag) && |tag| > 1 && c + "\n" == a + tag + rest && rest != ""
    ensures Contains(c, tag)
  {
    var s, n, k := c + "\n", |a|, |tag|;
    assert (a + tag + rest)[n..n + k] == tag;
    assert c[n..n + k] == s[n..n + k] == tag;
    assert PartAt(c, n, tag);
  }

  /** Calldata taken apart: what comes before its tag cannot be longer. */
  lemma DataEnds(t: string, c: string, z: string, c': string)
    requires !Contains(t, DATA_TAG) && !Contains(c, DATA_TAG)
    requires t + DATA_TAG + (c + "\n") == z + DATA_TAG + (c' + "\n")
    ensures t == z && c == c'
  {
    hide Contains;
    if |z| < |t| {
      Cut(t, c + "\n", z, c' + "\n", DATA_TAG);
      Found(t, |z|, DATA_TAG);
    } else if |t| < |z| {
      Cut(z, c' + "\n", t, c + "\n", DATA_TAG);
      LastField(c, z[|t| + |DATA_TAG|..], c' + "\n", DATA_TAG);
    } else {
      SameSplit(t, c + "\n", z, c' + "\n", DATA_TAG);
      assert c == (c + "\n")[..|c + "\n"| - 1] && c' == (c' + "\n")[..|c' + "\n"| - 1];
    }
  }

  lemma Found(s: string, i: nat, part: string)
    requires PartAt(s, i, part)
    ensures Contains(s, part)
  {}

  lemma SameSplit(a: string, rest: string, a': string, rest': string, tag: string)
    requires a + tag + rest == a' + tag + rest' && |a| == |a'|
    ensures a == a' && rest == rest'
  {
    var s := a + tag + rest;
    assert a == s[..|a|] && a' == (a' + tag + rest')[..|a|];
    assert rest == s[|a| + |tag|..] && rest' == (a' + tag + rest')[|a| + |tag|..];
  }

  /** An address taken apart: what comes before its tag is the block. */
  lemma ToEnds(b: string, t: string, c: string, y: string, t': string, c': string)
    requires !Contains(b, TO_TAG) && !Contains(t, TO_TAG) && !Contains(t, DATA_TAG) && !Contains(c, DATA_TAG)
    requires b + TO_TAG + (t + DATA_TAG + (c + "\n")) == y + TO_TAG + (t' + DATA_TAG + (c' + "\n"))
    ensures b == y && t == t' && c == c'
  {
    hide Contains;
    var rest, rest' := t + DATA_TAG + (c + "\n"), t' + DATA_TAG + (c' + "\n");
    if |y| < |b| {
      Cut(b, rest, y, rest', TO_TAG);
      Found(b, |y|, TO_TAG);
    } else if |b| < |y| {
      Cut(y, rest', b, rest, TO_TAG);
      var w := y[|b| + |TO_TAG|..];
      assert rest == w + TO_TAG + t' + DATA_TAG + (c' + "\n") by {
        assert w + TO_TAG + (t' + DATA_TAG + (c' + "\n")) == w + TO_TAG + t' + DATA_TAG + (c' + "\n");
      }
      DataEnds(t, c, w + TO_TAG + t', c');
      assert PartAt(t, |w|, TO_TAG);
      Found(t, |w|, TO_TAG);
    } else {
      SameSplit(b, rest, y, rest', TO_TAG);
      DataEnds(t, c, t', c');
    }
  }

  /** Unambiguous fields are read back whole. */
  lemma FieldsEnd(m: string, b: string, t: string, c: string, m': string, b': string, t': string, c': string)
    requires Unambiguous(m, b, t, c)
    requires IsLower(b) && IsLower(t) && IsLower(c) && IsLower(b') && IsLower(t') && IsLower(c')
    requires Fields(m, b, t, c) == Fields(m', b', t', c')
    ensures m == m' && b == b' && t == t' && c == c'
  {
    hide Contains, IsLower;
    var rest, rest' := b + TO_TAG + (t + DATA_TAG + (c + "\n")), b' + TO_TAG + (t' + DATA_TAG + (c' + "\n"));
    if |m'| < |m| {
      Cut(m, rest, m', rest', BLOCK_TAG);
      LowerFields(b', t', c');
      LowerPart(m[|m'| + |BLOCK_TAG|..], BLOCK_TAG + rest, rest');
    } else if |m| < |m'| {
      Cut(m', rest', m, rest, BLOCK_TAG);
      var u := m'[|m| + |BLOCK_TAG|..];
      assert rest == u + BLOCK_TAG + b' + TO_TAG + (t' + DATA_TAG + (c' + "\n")) by {
        assert u + BLOCK_TAG + (b' + TO_TAG + (t' + DATA_TAG + (c' + "\n")))
            == u + BLOCK_TAG + b' + TO_TAG + (t' + DATA_TAG + (c' + "\n"));
      }
      ToEnds(b, t, c, u + BLOCK_TAG + b', t', c');
      assert PartAt(b, |u|, BLOCK_TAG);
      Found(b, |u|, BLOCK_TAG);
    } else {
      SameSplit(m, rest, m', rest', BLOCK_TAG);
      ToEnds(b, t, c, b', t', c');
    }
  }

  lemma LowerFields(b: string, t: string, c: string)
    requires IsLower(b) && IsLower(t) && IsLower(c)
    ensures IsLower(b + TO_TAG + (t + DATA_TAG + (c + "\n")))
  {}

  lemma LowerPart(a: string, b: string, s: string)
    requires IsLower(s) && s == a + b
    ensures IsLower(a)
  {
    assert forall i :: 0 <= i < |a| ==> a[i] == s[i];
  }

  lemma LoweredIsLower(s: string)
    ensures IsLower(Lower(s))
    ensures IsLower(s) ==> Lower(s) == s
  {}

  /** The preimage of the read with these lowercase fields. */
  lemma PreimageFields(chainId: nat, d: Descriptor)
    ensures KeyPreimage(chainId, d) == PREIMAGE_VERSION + "\n" + ("chain_id=" + Decimal(chainId) + "\n"
            + ("method=" + Fields(d.methodName, Lower(d.block), Lower(d.to), Lower(d.calldata))))
  {
    hide Lower, Decimal;
    var m, b, t, c := d.methodName, Lower(d.block), Lower(d.to), Lower(d.calldata);
    assert "method=" + Fields(m, b, t, c)
        == "method=" + m + "\n" + ("block=" + b + "\n" + ("to=" + t + "\n" + ("calldata=" + c + "\n" + "")));
  }

  /** Equal preimages have equal chains and equal fields behind them. */
  lemma PreimageSplit(chainId: nat, d: Descriptor, chainId': nat, d': Descriptor)
    ensures KeyPreimage(chainId, d) == KeyPreimage(chainId', d')
        <==> chainId == chainId' && Fields(d.methodName, Lower(d.block), Lower(d.to), Lower(d.calldata))
                                 == Fields(d'.methodName, Lower(d'.block), Lower(d'.to), Lower(d'.calldata))
  {
    hide Lower, Decimal, Fields, KeyPreimage;
    PreimageFields(chainId, d);
    PreimageFields(chainId', d');
    if KeyPreimage(chainId, d) == KeyPreimage(chainId', d') {
      var f := Fields(d.methodName, Lower(d.block), Lower(d.to), Lower(d.calldata));
      var f' := Fields(d'.methodName, Lower(d'.block), Lower(d'.to), Lower(d'.calldata));
      var s, s' := "method=" + f, "method=" + f';
      SameSplit(PREIMAGE_VERSION, "chain_id=" + Decimal(chainId) + "\n" + s,
                PREIMAGE_VERSION, "chain_id=" + Decimal(chainId') + "\n" + s', "\n");
      DecimalOneLine(chainId);
      DecimalOneLine(chainId');
      LineSplit("chain_id=", Decimal(chainId), s, Decimal(chainId'), s');
      DecimalInjective(chainId, chainId');
      assert f == s[7..] && f' == s'[7..];
    }
  }

  /** No other read has this one's preimage. */
  ghost predicate Identified(chainId: nat, d: Descriptor) {
    forall chainId': nat, d': Descriptor ::
      KeyPreimage(chainId, d) == KeyPreimage(chainId', d') ==> SameRead(chainId, d, chainId', d')
  }

  ghost predicate Clear(d: Descriptor) {
    Unambiguous(d.methodName, Lower(d.block), Lower(d.to), Lower(d.calldata))
  }

  lemma ClearIsIdentified(chainId: nat, d: Descriptor)
    requires Clear(d)
    ensures Identified(chainId, d)
  {
    hide Lower, KeyPreimage, Fields, Unambiguous;
    forall chainId': nat, d': Descriptor | KeyPreimage(chainId, d) == KeyPreimage(chainId', d')
      ensures SameRead(chainId, d, chainId', d')
    {
      PreimageSplit(chainId, d, chainId', d');
      LoweredIsLower(d.block);
      LoweredIsLower(d.to);
      LoweredIsLower(d.calldata);
      LoweredIsLower(d'.block);
      LoweredIsLower(d'.to);
      LoweredIsLower(d'.calldata);
      FieldsEnd(d.methodName, Lower(d.block), Lower(d.to), Lower(d.calldata),
                d'.methodName, Lower(d'.block), Lower(d'.to), Lower(d'.calldata));
    }
  }

  /** A read of the same preimage with other fields is another read. */
  lemma Refuted(chainId: nat, d: Descriptor, m: string, b: string, t: string, c: string)
    requires IsLower(b) && IsLower(t) && IsLower(c)
    requires Fields(d.methodName, Lower(d.block), Lower(d.to), Lower(d.calldata)) == Fields(m, b, t, c)
    requires !(m == d.methodName && b == Lower(d.block) && t == Lower(d.to) && c == Lower(d.calldata))
    ensures !Identified(chainId, d)
  {
    hide Lower, KeyPreimage, Fields;
    var d' := Descriptor("", JsonRpc, m, b, t, c);
    LoweredIsLower(b);
    LoweredIsLower(t);
    LoweredIsLower(c);
    PreimageSplit(chainId, d, chainId, d');
    assert !SameRead(chainId, d, chainId, d');
  }

  /** A text around a tag in it. */
  lemma Around(s: string, tag: string) returns (a: string, b: string)
    requires Contains(s, tag)
    ensures s == a + tag + b && (IsLower(s) ==> IsLower(a) && IsLower(b))
  {
    var i: nat :| i <= |s| && PartAt(s, i, tag);
    a, b := s[..i], s[i + |tag|..];
  }

  lemma MovedTags(m: string, b: string, t: string, c: string, x: string, y: string)
    ensures Fields(m, b, t, x + DATA_TAG + y) == Fields(m, b, t + DATA_TAG + x, y)
    ensures Fields(m, b, x + TO_TAG + y, c) == Fields(m, b + TO_TAG + x, y, c)
    ensures Fields(m, x + BLOCK_TAG + y, t, c) == Fields(m + BLOCK_TAG + x, y, t, c)
  {
    assert (t + DATA_TAG + x) + DATA_TAG + (y + "\n") == t + DATA_TAG + (x + DATA_TAG + y + "\n");
    assert (b + TO_TAG + x) + TO_TAG + (y + DATA_TAG + (c + "\n"))
        == b + TO_TAG + (x + TO_TAG + y + DATA_TAG + (c + "\n"));
    assert (m + BLOCK_TAG + x) + BLOCK_TAG + (y + TO_TAG + (t + DATA_TAG + (c + "\n")))
        == m + BLOCK_TAG + (x + BLOCK_TAG + y + TO_TAG + (t + DATA_TAG + (c + "\n")));
  }

  lemma LowerJoin(x: string, tag: string, y: string)
    requires IsLower(x) && IsLower(y) && IsLower(tag)
    ensures IsLower(x + tag + y)
  {}

  /** A tag in the calldata, or the tags inside the address. */
  lemma UnclearEnd(chainId: nat, d: Descriptor)
    requires Contains(Lower(d.calldata), DATA_TAG) || Contains(Lower(d.to), DATA_TAG) || Contains(Lower(d.to), TO_TAG)
    ensures !Identified(chainId, d)
  {
    hide Lower, KeyPreimage, Fields, Contains, IsLower, Identified;
    var m, b, t, c := d.methodName, Lower(d.block), Lower(d.to), Lower(d.calldata);
    LowerTags();
    LoweredIsLower(d.block);
    LoweredIsLower(d.to);
    LoweredIsLower(d.calldata);
    if Contains(c, DATA_TAG) {
      var x, y := Around(c, DATA_TAG);
      MovedTags(m, b, t, c, x, y);
      LowerJoin(t, DATA_TAG, x);
      assert |t + DATA_TAG + x| > |t|;
      Refuted(chainId, d, m, b, t + DATA_TAG + x, y);
    } else if Contains(t, DATA_TAG) {
      var x, y := Around(t, DATA_TAG);
      MovedTags(m, b, x, c, y, c);
      LowerJoin(y, DATA_TAG, c);
      assert |x| < |t|;
      Refuted(chainId, d, m, b, x, y + DATA_TAG + c);
    } else {
      var x, y := Around(t, TO_TAG);
      MovedTags(m, b, t, c, x, y);
      LowerJoin(b, TO_TAG, x);
      assert |b + TO_TAG + x| > |b|;
      Refuted(chainId, d, m, b + TO_TAG + x, y, c);
    }
  }

  lemma LowerTags()
    ensures IsLower(BLOCK_TAG) && IsLower(TO_TAG) && IsLower(DATA_TAG)
  {}

  /** A tag in the block, or the block tag in the method. */
  lemma UnclearStart(chainId: nat, d: Descriptor)
    requires Contains(Lower(d.block), TO_TAG) || Contains(Lower(d.block), BLOCK_TAG)
          || exists i: nat :: i <= |d.methodName| && PartAt(d.methodName, i, BLOCK_TAG)
                              && IsLower(d.methodName[i + |BLOCK_TAG|..])
    ensures !Identified(chainId, d)
  {
    hide Lower, KeyPreimage, Fields, Contains, IsLower, Identified;
    var m, b, t, c := d.methodName, Lower(d.block), Lower(d.to), Lower(d.calldata);
    LowerTags();
    LoweredIsLower(d.block);
    LoweredIsLower(d.to);
    LoweredIsLower(d.calldata);
    if Contains(b, TO_TAG) {
      var x, y := Around(b, TO_TAG);
      MovedTags(m, x, t, c, y, t);
      LowerJoin(y, TO_TAG, t);
      assert |x| < |b|;
      Refuted(chainId, d, m, x, y + TO_TAG + t, c);
    } else if Contains(b, BLOCK_TAG) {
      var x, y := Around(b, BLOCK_TAG);
      MovedTags(m, b, t, c, x, y);
      assert |m + BLOCK_TAG + x| > |m|;
      Refuted(chainId, d, m + BLOCK_TAG + x, y, t, c);
    } else {
      var i: nat :| i <= |m| && PartAt(m, i, BLOCK_TAG) && IsLower(m[i + |BLOCK_TAG|..]);
      var x, y := m[..i], m[i + |BLOCK_TAG|..];
      assert m == x + BLOCK_TAG + y;
      MovedTags(x, b, t, c, y, b);
      LowerJoin(y, BLOCK_TAG, b);
      Refuted(chainId, d, x, y + BLOCK_TAG + b, t, c);
    }
  }

  /** A read is identified by its preimage exactly when no field of it holds a tag that
      could be read as another field's. */
  lemma IdentifiedIff(chainId: nat, d: Descriptor)
    ensures Identified(chainId, d) <==> Clear(d)
  {
    hide Lower, KeyPreimage, Contains, IsLower, Identified;
    if Clear(d) {
      ClearIsIdentified(chainId, d);
    } else if Contains(Lower(d.calldata), DATA_TAG) || Contains(Lower(d.to), DATA_TAG)
              || Contains(Lower(d.to), TO_TAG) {
      UnclearEnd(chainId, d);
    } else {
      UnclearStart(chainId, d);
    }
  }

  // ------------------------------------------------------------------
  // The documented shape
  // ------------------------------------------------------------------

  /** A preimage, byte for byte: five named lines under the version of the format. */
  lemma PreimageShape(chainId: nat, d: Descriptor)
    ensures KeyPreimage(chainId, d)
         == "crossfoot-cache-v1\nchain_id=" + Decimal(chainId) + "\nmethod=" + d.methodName
            + "\nblock=" + Lower(d.block) + "\nto=" + Lower(d.to) + "\ncalldata=" + Lower(d.calldata) + "\n"
  {
    hide Lower, Decimal;
    var m, b, t, c := d.methodName, Lower(d.block), Lower(d.to), Lower(d.calldata);
    LinesJoin("crossfoot-cache-v1\nchain_id=" + Decimal(chainId), m, b, t, c);
    VersionLine(Decimal(chainId), "method=" + m + "\n" + ("block=" + b + "\n" + ("to=" + t + "\n"
                + ("calldata=" + c + "\n" + ""))));
  }

  lemma VersionLine(chain: string, rest: string)
    ensures PREIMAGE_VERSION + "\n" + ("chain_id=" + chain + "\n" + rest)
         == "crossfoot-cache-v1\nchain_id=" + chain + "\n" + rest
  {
    assert PREIMAGE_VERSION + "\n" + "chain_id=" == "crossfoot-cache-v1\nchain_id=";
  }

  lemma LinesJoin(s: string, m: string, b: string, t: string, c: string)
    ensures s + "\n" + ("method=" + m + "\n"
                        + ("block=" + b + "\n" + ("to=" + t + "\n" + ("calldata=" + c + "\n" + ""))))
         == s + "\nmethod=" + m + "\nblock=" + b + "\nto=" + t + "\ncalldata=" + c + "\n"
  {}
}
