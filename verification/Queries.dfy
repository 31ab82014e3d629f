/** GET reads, whose query is part of the cache key. */
module Queries {
  import opened Keys
  import opened Prelude
  import opened Text

  type Query = seq<(string, string)>

  /** `k=v&k=v`. */
  function Rendered(query: Query): string {
    if query == [] then ""
    else if |query| == 1 then query[0].0 + "=" + query[0].1
    else Rendered(query[..|query| - 1]) + "&" + query[|query| - 1].0 + "=" + query[|query| - 1].1
  }

  /** A plain GET: the resource is the address, the pin the block, the query the
      calldata. */
  function HttpGetDescriptor(labelText: string, resource: string, query: Query, json: bool,
                             pin: string): (d: Descriptor)
    ensures d.wire == HttpGet(query, json, Some("https://" + resource)) && d.to == resource && d.block == pin
  {
    Descriptor(labelText, HttpGet(query, json, Some("https://" + resource)), "http_get", pin, resource, Rendered(query))
  }

  // ------------------------------------------------------------------
  // Two queries of one resource
  // ------------------------------------------------------------------

  function LowerQuery(query: Query): (low: Query)
    ensures |low| == |query|
  {
    seq(|query|, i requires 0 <= i < |query| => (Lower(query[i].0), Lower(query[i].1)))
  }

  /** The same names and values in the same order, up to letter case. */
  predicate SameQuery(q: Query, q': Query) {
    LowerQuery(q) == LowerQuery(q')
  }

  predicate PlainPair(name: string, value: string) {
    Lacks(name, '&') && Lacks(name, '=') && Lacks(value, '&') && Lacks(value, '=')
  }

  /** No name and no value holds one of the separators. */
  predicate Plain(query: Query) {
    forall i :: 0 <= i < |query| ==> PlainPair(query[i].0, query[i].1)
  }

  /** Both queries under one pin, of one resource. */
  predicate Collide(chainId: nat, resource: string, pin: string, q: Query, q': Query) {
    KeyPreimage(chainId, HttpGetDescriptor("", resource, q, true, pin))
    == KeyPreimage(chainId, HttpGetDescriptor("", resource, q', true, pin))
  }

  lemma CollideIff(chainId: nat, resource: string, pin: string, q: Query, q': Query)
    ensures Collide(chainId, resource, pin, q, q') <==> Rendered(LowerQuery(q)) == Rendered(LowerQuery(q'))
  {
    hide Lower, KeyPreimage, Rendered;
    var d, d' := HttpGetDescriptor("", resource, q, true, pin), HttpGetDescriptor("", resource, q', true, pin);
    PreimageSplit(chainId, d, chainId, d');
    RenderedLower(q);
    RenderedLower(q');
    LastField("http_get", Lower(pin), Lower(resource), Lower(Rendered(q)), Lower(Rendered(q')));
  }

  lemma LastField(m: string, b: string, t: string, c: string, c': string)
    ensures Fields(m, b, t, c) == Fields(m, b, t, c') <==> c == c'
  {
    var head := m + BLOCK_TAG + b + TO_TAG + t + DATA_TAG;
    assert Fields(m, b, t, c) == head + c + "\n" && Fields(m, b, t, c') == head + c' + "\n";
    if head + c + "\n" == head + c' + "\n" {
      assert c == (head + c + "\n")[|head|..|head + c + "\n"| - 1];
      assert c' == (head + c' + "\n")[|head|..|head + c' + "\n"| - 1];
    }
  }

  lemma {:induction false} RenderedLower(query: Query)
    ensures Lower(Rendered(query)) == Rendered(LowerQuery(query))
  {
    hide Lower;
    LowerSeparators();
    if |query| == 1 {
      LowerPair(query[0].0, query[0].1);
    } else if query != [] {
      var n := |query| - 1;
      var init, name, value := query[..n], query[n].0, query[n].1;
      RenderedLower(init);
      assert LowerQuery(query)[..n] == LowerQuery(init);
      LowerPair(Rendered(init) + "&" + name, value);
      LowerConcat(Rendered(init) + "&", name);
      LowerConcat(Rendered(init), "&");
    }
  }

  lemma LowerSeparators()
    ensures Lower("") == "" && Lower("=") == "=" && Lower("&") == "&"
  {}

  lemma LowerPair(name: string, value: string)
    ensures Lower(name + "=" + value) == Lower(name) + "=" + Lower(value)
  {
    hide Lower;
    LowerSeparators();
    LowerConcat(name + "=", value);
    LowerConcat(name, "=");
  }

  /** The last separator cuts a text in one way only. */
  lemma CutLast(a: string, b: string, a': string, b': string, c: char)
    requires a + [c] + b == a' + [c] + b' && Lacks(b, c) && Lacks(b', c)
    ensures a == a' && b == b'
  {
    var s := a + [c] + b;
    assert s[|a|] == c && s[|a'|] == c;
    assert s[..|a|] == a && s[..|a'|] == a';
    assert s[|a| + 1..] == b && s[|a'| + 1..] == b';
  }

  /** What stands before the last value: the rendered front and the last name. */
  function BeforeValue(query: Query): string
    requires query != []
  {
    if |query| == 1 then query[0].0 else Rendered(query[..|query| - 1]) + "&" + query[|query| - 1].0
  }

  lemma LastPair(query: Query)
    requires query != []
    ensures Rendered(query) == BeforeValue(query) + "=" + query[|query| - 1].1
  {}

  /** Plain queries are rendered apart. */
  lemma {:induction false} RenderedApart(q: Query, q': Query)
    requires Plain(q) && Plain(q') && Rendered(q) == Rendered(q')
    ensures q == q'
  {
    hide Rendered, BeforeValue;
    if q == [] || q' == [] {
      RenderedNothing(q);
      RenderedNothing(q');
    } else {
      var n, n' := |q| - 1, |q'| - 1;
      LastPair(q);
      LastPair(q');
      CutLast(BeforeValue(q), q[n].1, BeforeValue(q'), q'[n'].1, '=');
      FrontPair(q);
      FrontPair(q');
      if n > 0 && n' > 0 {
        CutLast(Rendered(q[..n]), q[n].0, Rendered(q'[..n']), q'[n'].0, '&');
        RenderedApart(q[..n], q'[..n']);
        assert q == q[..n] + [q[n]] && q' == q'[..n'] + [q'[n']];
      } else {
        assert n == n' == 0;
      }
    }
  }

  lemma RenderedNothing(query: Query)
    ensures Rendered(query) == "" <==> query == []
  {}

  lemma FrontPair(query: Query)
    requires query != [] && Plain(query)
    ensures |query| == 1 ==> BeforeValue(query) == query[0].0
    ensures |query| > 1 ==> BeforeValue(query) == Rendered(query[..|query| - 1]) + ['&'] + query[|query| - 1].0
    ensures Lacks(BeforeValue(query), '&') <==> |query| == 1
  {
    if |query| > 1 {
      assert BeforeValue(query)[|Rendered(query[..|query| - 1])|] == '&';
    }
  }

  lemma PlainLower(query: Query)
    ensures Plain(LowerQuery(query)) <==> Plain(query)
  {
    hide Lower, Lacks;
    var low := LowerQuery(query);
    forall i | 0 <= i < |query|
      ensures PlainPair(low[i].0, low[i].1) == PlainPair(query[i].0, query[i].1)
    {
      LacksLower(query[i].0);
      LacksLower(query[i].1);
    }
  }

  lemma LacksLower(s: string)
    ensures Lacks(Lower(s), '&') == Lacks(s, '&') && Lacks(Lower(s), '=') == Lacks(s, '=')
  {
    assert forall i :: 0 <= i < |s| ==> (Lower(s)[i] == '&' <==> s[i] == '&') && (Lower(s)[i] == '=' <==> s[i] == '=');
  }

  /** Two queries without a separator in a name or a value collide exactly when they are
      the same query up to letter case. */
  lemma PlainQueriesApart(chainId: nat, resource: string, pin: string, q: Query, q': Query)
    requires Plain(q) && Plain(q')
    ensures Collide(chainId, resource, pin, q, q') <==> SameQuery(q, q')
  {
    hide Rendered, LowerQuery, Plain, Collide;
    CollideIff(chainId, resource, pin, q, q');
    PlainLower(q);
    PlainLower(q');
    if Rendered(LowerQuery(q)) == Rendered(LowerQuery(q')) {
      RenderedApart(LowerQuery(q), LowerQuery(q'));
    }
  }

  // ------------------------------------------------------------------
  // A query and any other query
  // ------------------------------------------------------------------

  /** It collides with no other query. */
  ghost predicate Alone(chainId: nat, resource: string, pin: string, q: Query) {
    forall q' :: Collide(chainId, resource, pin, q, q') ==> SameQuery(q, q')
  }

  /** At most one pair, and no second '=' in it. */
  predicate OnePair(q: Query) {
    q == [] || (|q| == 1 && Lacks(q[0].0, '=') && Lacks(q[0].1, '='))
  }

  lemma LacksCount(s: string, c: char)
    ensures Lacks(s, c) <==> multiset(s)[c] == 0
  {
    assert multiset(s)[c] > 0 <==> c in s;
  }

  /** A rendered query has an '=' for each pair, and only those when there is no other
      in its names and values. */
  lemma {:induction false} EqualSigns(q: Query)
    ensures multiset(Rendered(q))['='] >= |q|
    ensures |q| == 1 ==> multiset(Rendered(q))['='] == 1 + multiset(q[0].0)['='] + multiset(q[0].1)['=']
  {
    if |q| > 1 {
      EqualSigns(q[..|q| - 1]);
    }
  }

  lemma OnePairAlone(q: Query, q': Query)
    requires OnePair(q) && Rendered(q) == Rendered(q')
    ensures q == q'
  {
    hide Rendered, Lacks;
    RenderedNothing(q);
    RenderedNothing(q');
    if q != [] {
      EqualSigns(q);
      EqualSigns(q');
      LacksCount(q[0].0, '=');
      LacksCount(q[0].1, '=');
      LacksCount(q'[0].0, '=');
      LacksCount(q'[0].1, '=');
      LastPair(q);
      LastPair(q');
      CutLast(q[0].0, q[0].1, q'[0].0, q'[0].1, '=');
    }
  }

  /** An '=' in the name may be taken for the one behind it. */
  lemma NameTwin(name: string, value: string) returns (q': Query)
    requires !Lacks(name, '=')
    ensures Rendered(q') == Rendered([(name, value)]) && !SameQuery([(name, value)], q')
  {
    hide Lower;
    var i :| 0 <= i < |name| && name[i] == '=';
    q' := [(name[..i], name[i + 1..] + "=" + value)];
    assert name == name[..i] + "=" + name[i + 1..];
    assert |LowerQuery(q')[0].0| < |LowerQuery([(name, value)])[0].0|;
  }

  /** And so may one in the value. */
  lemma ValueTwin(name: string, value: string) returns (q': Query)
    requires !Lacks(value, '=')
    ensures Rendered(q') == Rendered([(name, value)]) && !SameQuery([(name, value)], q')
  {
    hide Lower;
    var i :| 0 <= i < |value| && value[i] == '=';
    q' := [(name + "=" + value[..i], value[i + 1..])];
    assert value == value[..i] + "=" + value[i + 1..];
    assert |LowerQuery(q')[0].0| > |LowerQuery([(name, value)])[0].0|;
  }

  /** Any other query shares its text with another one. */
  lemma Twin(q: Query) returns (q': Query)
    requires !OnePair(q)
    ensures Rendered(q') == Rendered(q) && !SameQuery(q, q')
  {
    hide Lower, Lacks;
    if |q| > 1 {
      LastPair(q);
      q' := [(BeforeValue(q), q[|q| - 1].1)];
    } else {
      var (name, value) := q[0];
      assert q == [(name, value)];
      if !Lacks(name, '=') {
        q' := NameTwin(name, value);
      } else {
        q' := ValueTwin(name, value);
      }
    }
  }

  /** A query collides with no other one exactly when it has one pair at most, without
      a second '='. */
  lemma AloneIff(chainId: nat, resource: string, pin: string, q: Query)
    ensures Alone(chainId, resource, pin, q) <==> OnePair(q)
  {
    hide Rendered, LowerQuery, Collide, OnePair;
    if OnePair(q) {
      forall q' | Collide(chainId, resource, pin, q, q')
        ensures SameQuery(q, q')
      {
        CollideIff(chainId, resource, pin, q, q');
        OnePairLower(q);
        OnePairAlone(LowerQuery(q), LowerQuery(q'));
      }
    } else {
      var q' := Twin(q);
      CollideIff(chainId, resource, pin, q, q');
      RenderedLower(q);
      RenderedLower(q');
    }
  }

  lemma OnePairLower(q: Query)
    requires OnePair(q)
    ensures OnePair(LowerQuery(q))
  {
    if q != [] {
      LacksLower(q[0].0);
      LacksLower(q[0].1);
    }
  }

  /** One parameter with an '&' in its value, and two parameters. */
  lemma AmpersandCollides(chainId: nat, resource: string, pin: string)
    ensures var q, q' := [("a", "1&b=2")], [("a", "1"), ("b", "2")];
            Collide(chainId, resource, pin, q, q') && !SameQuery(q, q')
  {
    hide Lower, Collide;
    var q, q' := [("a", "1&b=2")], [("a", "1"), ("b", "2")];
    CollideIff(chainId, resource, pin, q, q');
    RenderedLower(q);
    RenderedLower(q');
    assert q'[..1] == [("a", "1")];
    assert Rendered(q) == "a=1&b=2" == Rendered(q');
  }

  // ------------------------------------------------------------------
  // A read with a tag in it
  // ------------------------------------------------------------------

  /** Two GETs with different pins and resources, and one preimage. */
  lemma NewlineCollides(chainId: nat)
    ensures var d := HttpGetDescriptor("a", "host", [], true, "1\nto=2");
            var d' := HttpGetDescriptor("a", "2\nto=host", [], true, "1");
            KeyPreimage(chainId, d) == KeyPreimage(chainId, d') && !SameRead(chainId, d, chainId, d')
  {
    hide Lower, KeyPreimage, Fields;
    var d := HttpGetDescriptor("a", "host", [], true, "1\nto=2");
    var d' := HttpGetDescriptor("a", "2\nto=host", [], true, "1");
    LowerLiterals();
    PreimageSplit(chainId, d, chainId, d');
    MovedTags("http_get", "1", "", Lower(""), "2", "host");
    assert "1" + TO_TAG + "2" == "1\nto=2" && "2" + TO_TAG + "host" == "2\nto=host";
  }

  lemma LowerLiterals()
    ensures Lower("1\nto=2") == "1\nto=2" && Lower("host") == "host"
    ensures Lower("1") == "1" && Lower("2\nto=host") == "2\nto=host"
  {}
}
