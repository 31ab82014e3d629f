/**
 The endpoint identity allowed into evidence: userinfo, query and fragment
 dropped, path segments that look like a key replaced.
 */
module Redact {
  import opened Prelude
  import opened Text

  const REDACTED: string := "<redacted>"

  // ------------------------------------------------------------------
  // Cutting strings
  // ------------------------------------------------------------------

  /** Where "://" starts at or after i, if it does. */
  function SchemeEnd(s: string, i: nat): (p: Option<nat>)
    requires i <= |s|
    ensures p.Some? ==> i <= p.value && p.value + 3 <= |s| && SepAt(s, p.value)
                        && forall k :: i <= k < p.value ==> !SepAt(s, k)
    ensures p == None ==> forall k :: i <= k ==> !SepAt(s, k)
    decreases |s| - i
  {
    if i + 3 > |s| then None
    else if SepAt(s, i) then Some(i)
    else SchemeEnd(s, i + 1)
  }

  predicate SepAt(s: string, i: nat) {
    i + 3 <= |s| && s[i] == ':' && s[i + 1] == '/' && s[i + 2] == '/'
  }

  predicate HasSep(s: string) {
    exists i :: 0 <= i < |s| && SepAt(s, i)
  }

  /** What comes before the first of the given characters. */
  function Before(s: string, cs: set<char>): (t: string)
    ensures t <= s && (forall i :: 0 <= i < |t| ==> t[i] !in cs)
    ensures |t| < |s| ==> s[|t|] in cs
  {
    if s == "" || s[0] in cs then "" else [s[0]] + Before(s[1..], cs)
  }

  /** What comes after the last of the given character. */
  function AfterLast(s: string, c: char): (t: string)
    ensures |t| <= |s| && t == s[|s| - |t|..]
    ensures forall i :: 0 <= i < |t| ==> t[i] != c
  {
    if s == "" || s[|s| - 1] == c then "" else AfterLast(s[..|s| - 1], c) + [s[|s| - 1]]
  }

  lemma {:induction false} BeforeAll(s: string, cs: set<char>)
    requires forall i :: 0 <= i < |s| ==> s[i] !in cs
    ensures Before(s, cs) == s
  {
    if s != "" {
      BeforeAll(s[1..], cs);
    }
  }

  lemma {:induction false} BeforeAt(a: string, rest: string, cs: set<char>)
    requires (forall i :: 0 <= i < |a| ==> a[i] !in cs) && rest != "" && rest[0] in cs
    ensures Before(a + rest, cs) == a
  {
    if a == "" {
      assert a + rest == rest;
    } else {
      BeforeAt(a[1..], rest, cs);
      assert (a + rest)[1..] == a[1..] + rest;
    }
  }

  lemma {:induction false} AfterLastAll(s: string, c: char)
    requires Lacks(s, c)
    ensures AfterLast(s, c) == s
  {
    if s != "" {
      AfterLastAll(s[..|s| - 1], c);
    }
  }

  /** `s.split('/')`. */
  function Segments(s: string): (segs: seq<string>)
    ensures segs != [] && forall i :: 0 <= i < |segs| ==> Lacks(segs[i], '/')
  {
    if s == "" then [""]
    else
      var rest := Segments(s[1..]);
      if s[0] == '/' then [""] + rest else [[s[0]] + rest[0]] + rest[1..]
  }

  /** Each segment behind a slash. */
  function Slashed(segs: seq<string>): string {
    if segs == [] then "" else "/" + segs[0] + Slashed(segs[1..])
  }

  lemma {:induction false} SlashedSegments(s: string)
    ensures Slashed(Segments(s)) == "/" + s
  {
    if s != "" {
      SlashedSegments(s[1..]);
      SlashedCons(s[0], Segments(s[1..]), s[1..]);
      assert s == [s[0]] + s[1..];
    }
  }

  lemma SlashedHead(head: string, tail: seq<string>)
    ensures Slashed([head] + tail) == "/" + head + Slashed(tail)
  {
    assert ([head] + tail)[1..] == tail;
  }

  lemma Regroup(c: char, a: string, b: string)
    ensures "/" + ([c] + a) + b == "/" + ([c] + (a + b))
    ensures ("/" + a + b)[1..] == a + b
  {}

  lemma SlashedCons(c: char, segs: seq<string>, rest: string)
    requires segs != [] && Slashed(segs) == "/" + rest
    ensures Slashed([""] + segs) == "/" + "/" + rest
    ensures Slashed([[c] + segs[0]] + segs[1..]) == "/" + ([c] + rest)
  {
    hide Slashed;
    SlashedHead("", segs);
    SlashedHead([c] + segs[0], segs[1..]);
    SlashedHead(segs[0], segs[1..]);
    assert [segs[0]] + segs[1..] == segs;
    Regroup(c, segs[0], Slashed(segs[1..]));
    assert rest == ("/" + rest)[1..];
  }

  lemma {:induction false} SegmentsSlashed(segs: seq<string>)
    requires segs != [] && forall i :: 0 <= i < |segs| ==> Lacks(segs[i], '/')
    ensures Segments(Slashed(segs)[1..]) == segs
    decreases |segs|, |segs[0]|
  {
    hide Slashed, Segments;
    SlashedTail(segs);
    if segs[0] == "" {
      if |segs| > 1 {
        SegmentsSlashed(segs[1..]);
        SlashedTail(segs[1..]);
        SegmentsAtSlash(Slashed(segs[1..])[1..]);
        assert Slashed(segs)[1..] == "/" + Slashed(segs[1..])[1..];
        assert segs == [""] + segs[1..];
      } else {
        SlashedNothing();
        SegmentsNothing();
        assert segs == [""];
      }
    } else {
      var shorter := [segs[0][1..]] + segs[1..];
      SegmentsSlashed(shorter);
      SlashedTail(shorter);
      assert shorter[1..] == segs[1..];
      SegmentsAtChar(segs[0][0], Slashed(shorter)[1..]);
      assert [segs[0][0]] + segs[0][1..] == segs[0];
      assert [segs[0][0]] + Slashed(shorter)[1..] == Slashed(segs)[1..];
      assert segs == [segs[0]] + shorter[1..];
    }
  }

  lemma SegmentsNothing()
    ensures Segments("") == [""]
  {}

  lemma SlashedTail(segs: seq<string>)
    requires segs != []
    ensures Slashed(segs) == "/" + (segs[0] + Slashed(segs[1..]))
    ensures Slashed(segs)[1..] == segs[0] + Slashed(segs[1..])
  {
    assert Slashed(segs) == "/" + (segs[0] + Slashed(segs[1..]));
  }

  lemma SegmentsAtSlash(rest: string)
    ensures Segments("/" + rest) == [""] + Segments(rest)
  {
    assert ("/" + rest)[1..] == rest;
  }

  lemma SegmentsAtChar(c: char, rest: string)
    requires c != '/'
    ensures Segments([c] + rest) == [[c] + Segments(rest)[0]] + Segments(rest)[1..]
  {
    assert ([c] + rest)[1..] == rest;
  }

  // ------------------------------------------------------------------
  // redact_endpoint
  // ------------------------------------------------------------------

  predicate HasDigit(s: string) {
    exists i :: 0 <= i < |s| && '0' <= s[i] <= '9'
  }

  /** Sixteen characters or more, or eight or more with a digit. */
  predicate KeyLike(segment: string) {
    segment != "" && (|segment| >= 16 || (|segment| >= 8 && HasDigit(segment)))
  }

  function RedactSegment(segment: string): string {
    if KeyLike(segment) then REDACTED else segment
  }

  function RedactSegments(segs: seq<string>): (out: seq<string>)
    ensures |out| == |segs|
  {
    seq(|segs|, i requires 0 <= i < |segs| => RedactSegment(segs[i]))
  }

  /** The scheme with its "://", and the rest. */
  function SplitScheme(url: string): (string, string) {
    match SchemeEnd(url, 0)
    case Some(p) => (url[..p + 3], url[p + 3..])
    case None => ("", url)
  }

  /** An authority and, when a slash follows it, a path. */
  datatype Location = Location(authority: string, path: Option<string>)

  function Locate(rest: string): Location {
    var core := Before(rest, {'?', '#'});
    var authority := Before(core, {'/'});
    Location(authority, if |authority| < |core| then Some(core[|authority| + 1..]) else None)
  }

  function RedactRest(rest: string): string {
    var at := Locate(rest);
    AfterLast(at.authority, '@')
    + match at.path { case None => "" case Some(path) => Slashed(RedactSegments(Segments(path))) }
  }

  function RedactSpec(url: string): string {
    SplitScheme(url).0 + RedactRest(SplitScheme(url).1)
  }

  method RedactEndpoint(url: string) returns (out: string)
    ensures out == RedactSpec(url)
  {
    hide Locate, AfterLast, SplitScheme, Segments, KeyLike, RedactSegments, Slashed;
    var (scheme, rest) := SplitScheme(url);
    var at := Locate(rest);
    out := scheme + AfterLast(at.authority, '@');
    if at.path == None {
      assert out == scheme + (AfterLast(at.authority, '@') + "");
      return;
    }
    ghost var head := out;
    var segs := Segments(at.path.value);
    SlashedNext(segs, 0);
    for i := 0 to |segs|
      invariant out == head + Slashed(RedactSegments(segs[..i]))
    {
      SlashedNext(segs, i);
      out := out + "/";
      if segs[i] == "" {
        assert out == head + (Slashed(RedactSegments(segs[..i])) + "/" + RedactSegment(segs[i]));
        continue;
      }
      out := out + if KeyLike(segs[i]) then REDACTED else segs[i];
      assert out == head + (Slashed(RedactSegments(segs[..i])) + "/" + RedactSegment(segs[i]));
    }
    assert segs[..|segs|] == segs;
    assert out == scheme + (AfterLast(at.authority, '@') + Slashed(RedactSegments(segs)));
  }

  lemma SlashedNext(segs: seq<string>, i: nat)
    requires i < |segs|
    ensures Slashed(RedactSegments(segs[..0])) == "" && !KeyLike("")
    ensures Slashed(RedactSegments(segs[..i + 1])) == Slashed(RedactSegments(segs[..i])) + "/" + RedactSegment(segs[i])
  {
    assert RedactSegments(segs[..0]) == [];
    SlashedSnoc(RedactSegments(segs[..i]), RedactSegment(segs[i]));
    assert RedactSegments(segs[..i + 1]) == RedactSegments(segs[..i]) + [RedactSegment(segs[i])];
  }

  lemma {:induction false} SlashedSnoc(segs: seq<string>, last: string)
    ensures Slashed(segs + [last]) == Slashed(segs) + "/" + last
  {
    if segs == [] {
      assert [last][1..] == [];
    } else {
      SlashedSnoc(segs[1..], last);
      assert (segs + [last])[1..] == segs[1..] + [last];
    }
  }

  // ------------------------------------------------------------------
  // What the output carries
  // ------------------------------------------------------------------

  /** A redacted segment is not key-like, and nothing else in it changes. */
  lemma RedactedSegment(segment: string)
    requires Lacks(segment, '/')
    ensures !KeyLike(RedactSegment(segment)) && Lacks(RedactSegment(segment), '/')
    ensures Clean(segment) ==> Clean(RedactSegment(segment))
    ensures RedactSegment(RedactSegment(segment)) == RedactSegment(segment)
  {}

  lemma {:induction false} SlashedLacks(segs: seq<string>, c: char)
    requires c != '/' && forall i :: 0 <= i < |segs| ==> Lacks(segs[i], c)
    ensures Lacks(Slashed(segs), c)
  {
    if segs != [] {
      SlashedLacks(segs[1..], c);
    }
  }

  lemma {:induction false} SegmentsLack(s: string, c: char)
    requires Lacks(s, c)
    ensures forall i :: 0 <= i < |Segments(s)| ==> Lacks(Segments(s)[i], c)
  {
    if s != "" {
      SegmentsLack(s[1..], c);
    }
  }

  /** No character that ends a segment, a path or an authority. */
  predicate Clean(s: string) {
    Lacks(s, '/') && Lacks(s, '?') && Lacks(s, '#')
  }

  function Host(rest: string): string {
    AfterLast(Locate(rest).authority, '@')
  }

  function PlainPath(rest: string): seq<string> {
    if Locate(rest).path.Some? then Segments(Locate(rest).path.value) else []
  }

  /** Past the scheme nothing but a host and clean segments is left: no query,
      no fragment, no userinfo, no segment the key test would replace. */
  lemma RedactRestClean(rest: string)
    ensures var out := RedactRest(rest);
            var at := Locate(out);
            && Lacks(out, '?') && Lacks(out, '#') && Lacks(at.authority, '@')
            && (at.path.Some?
                ==> forall i :: 0 <= i < |Segments(at.path.value)| ==> !KeyLike(Segments(at.path.value)[i]))
  {
    hide Clean, Lacks, Locate, Segments, KeyLike, RedactRest, RedactSegments, Slashed, Host;
    var segs := RedactSegments(PlainPath(rest));
    RedactShape(rest);
    HostClean(rest);
    SegmentsClean(rest);
    LocateShape(Host(rest), segs);
  }

  /** The output is a host and slashed redacted segments. */
  lemma RedactShape(rest: string)
    ensures RedactRest(rest) == Host(rest) + Slashed(RedactSegments(PlainPath(rest)))
  {
    hide Locate, Segments, AfterLast;
    if Locate(rest).path == None {
      assert RedactSegments([]) == [];
      assert Slashed([]) == "";
    }
  }

  /** The core carries no query and no fragment. */
  lemma CoreLacks(rest: string)
    ensures Lacks(Before(rest, {'?', '#'}), '?') && Lacks(Before(rest, {'?', '#'}), '#')
  {
    hide Before;
  }

  lemma LocateParts(rest: string)
    ensures Clean(Locate(rest).authority)
    ensures Locate(rest).path.Some? ==> Lacks(Locate(rest).path.value, '?') && Lacks(Locate(rest).path.value, '#')
  {
    hide Before;
    CoreLacks(rest);
  }

  lemma HostClean(rest: string)
    ensures Clean(Host(rest)) && Lacks(Host(rest), '@')
  {
    hide Before, Locate, AfterLast;
    LocateParts(rest);
  }

  lemma SegmentsClean(rest: string)
    ensures forall i :: 0 <= i < |PlainPath(rest)| ==> Lacks(PlainPath(rest)[i], '/')
    ensures var out := RedactSegments(PlainPath(rest));
            forall i :: 0 <= i < |out| ==> Clean(out[i]) && !KeyLike(out[i])
  {
    hide Locate, Segments, Lacks;
    LocateParts(rest);
    if Locate(rest).path.Some? {
      var plain := Segments(Locate(rest).path.value);
      SegmentsLack(Locate(rest).path.value, '?');
      SegmentsLack(Locate(rest).path.value, '#');
      forall i | 0 <= i < |plain|
        ensures Clean(RedactSegment(plain[i])) && !KeyLike(RedactSegment(plain[i]))
      {
        RedactedSegment(plain[i]);
      }
    }
  }

  lemma CleanConcat(a: string, b: string, c: char)
    requires Lacks(a, c) && Lacks(b, c)
    ensures Lacks(a + b, c)
  {}

  /** Such a shape is located as it was built. */
  lemma LocateShape(host: string, segs: seq<string>)
    requires Clean(host) && forall i :: 0 <= i < |segs| ==> Clean(segs[i])
    ensures Lacks(host + Slashed(segs), '?') && Lacks(host + Slashed(segs), '#')
    ensures Locate(host + Slashed(segs)).authority == host
    ensures segs == [] ==> Locate(host + Slashed(segs)).path == None
    ensures segs != [] ==> Locate(host + Slashed(segs)).path.Some?
                           && Segments(Locate(host + Slashed(segs)).path.value) == segs
  {
    hide Segments, Before, Slashed, Lacks;
    var out := host + Slashed(segs);
    SlashedLacks(segs, '?');
    SlashedLacks(segs, '#');
    CleanConcat(host, Slashed(segs), '?');
    CleanConcat(host, Slashed(segs), '#');
    LocateBuilt(host, segs);
    if segs == [] {
      SlashedNothing();
      assert out == host;
    } else {
      SlashedTail(segs);
      SegmentsSlashed(segs);
      DropHost(host, Slashed(segs));
    }
  }

  lemma DropHost(host: string, path: string)
    requires path != ""
    ensures (host + path)[|host| + 1..] == path[1..]
  {}

  lemma LocateBuilt(host: string, segs: seq<string>)
    requires Lacks(host, '/') && Lacks(host + Slashed(segs), '?') && Lacks(host + Slashed(segs), '#')
    ensures Before(host + Slashed(segs), {'?', '#'}) == host + Slashed(segs)
    ensures Before(host + Slashed(segs), {'/'}) == host
  {
    hide Before, Slashed;
    BeforeAll(host + Slashed(segs), {'?', '#'});
    if segs == [] {
      SlashedNothing();
      BeforeAll(host, {'/'});
      assert host + Slashed(segs) == host;
    } else {
      SlashedTail(segs);
      BeforeAt(host, Slashed(segs), {'/'});
    }
  }

  /** Redacted segments stay as they are. */
  lemma RedactedAgain(segs: seq<string>)
    requires forall i :: 0 <= i < |segs| ==> !KeyLike(segs[i])
    ensures RedactSegments(segs) == segs
  {}

  lemma RedactRestTwice(rest: string)
    ensures RedactRest(RedactRest(rest)) == RedactRest(rest)
  {
    hide Clean, Lacks, Locate, Segments, KeyLike, RedactRest, RedactSegments, Slashed, AfterLast;
    var segs := RedactSegments(PlainPath(rest));
    var out := RedactRest(rest);
    RedactShape(rest);
    HostClean(rest);
    SegmentsClean(rest);
    LocateShape(Host(rest), segs);
    RedactShape(out);
    AfterLastAll(Host(rest), '@');
    RedactedAgain(segs);
    assert PlainPath(out) == segs;
  }

  // ------------------------------------------------------------------
  // No scheme appears
  // ------------------------------------------------------------------

  predicate EndsColon(s: string) {
    s != "" && s[|s| - 1] == ':'
  }

  /** "://" in a followed by slashed segments: a segment, or a itself, ends in a
      colon, and the next segment is empty and not the last. */
  predicate SepIn(a: string, segs: seq<string>)
    decreases segs
  {
    segs != [] && ((EndsColon(a) && segs[0] == "" && |segs| >= 2) || SepIn(segs[0], segs[1..]))
  }

  lemma {:induction false} SepInExact(a: string, segs: seq<string>)
    requires Lacks(a, '/') && forall i :: 0 <= i < |segs| ==> Lacks(segs[i], '/')
    ensures HasSep(a + Slashed(segs)) <==> SepIn(a, segs)
    decreases segs
  {
    var s := a + Slashed(segs);
    if segs == [] {
      assert s == a;
      assert forall i :: 0 <= i < |s| ==> !SepAt(s, i);
    } else {
      var rest := segs[0] + Slashed(segs[1..]);
      SepInExact(segs[0], segs[1..]);
      assert s == a + "/" + rest;
      SepStep(a, rest);
      assert rest != "" && rest[0] == '/' <==> segs[0] == "" && |segs| >= 2;
    }
  }

  lemma SepStep(a: string, rest: string)
    requires Lacks(a, '/')
    ensures HasSep(a + "/" + rest) <==> (EndsColon(a) && rest != "" && rest[0] == '/') || HasSep(rest)
  {
    var s, n := a + "/" + rest, |a|;
    if i :| 0 <= i < |s| && SepAt(s, i) {
      assert i + 1 >= n;
      if i + 1 > n {
        assert SepAt(rest, i - n - 1);
      }
    }
    if EndsColon(a) && rest != "" && rest[0] == '/' {
      assert SepAt(s, n - 1);
    }
    if i :| 0 <= i < |rest| && SepAt(rest, i) {
      assert SepAt(s, n + 1 + i);
    }
  }

  /** Redaction creates no separator. */
  lemma {:induction false} RedactedSepIn(a: string, a': string, segs: seq<string>)
    requires SepIn(a', RedactSegments(segs)) && (EndsColon(a') ==> EndsColon(a))
    ensures SepIn(a, segs)
    decreases segs
  {
    var out := RedactSegments(segs);
    assert out[1..] == RedactSegments(segs[1..]);
    if !(EndsColon(a') && out[0] == "" && |out| >= 2) {
      RedactedSepIn(segs[0], out[0], segs[1..]);
    }
  }

  /** The input up to its query, as an authority and slashed segments. */
  lemma CoreShape(rest: string)
    ensures Locate(rest).authority + Slashed(PlainPath(rest)) <= rest
    ensures Lacks(Locate(rest).authority, '/')
    ensures EndsColon(Host(rest)) ==> EndsColon(Locate(rest).authority)
  {
    hide Segments, Slashed;
    var core := Before(rest, {'?', '#'});
    var at := Locate(rest);
    if at.path.Some? {
      SlashedSegments(at.path.value);
      assert core == at.authority + ("/" + at.path.value);
    } else {
      SlashedNothing();
      assert core == at.authority + "";
    }
  }

  lemma SlashedNothing()
    ensures Slashed([]) == ""
  {}

  lemma PrefixSep(core: string, rest: string)
    requires core <= rest && HasSep(core)
    ensures HasSep(rest)
  {
    var i :| 0 <= i < |core| && SepAt(core, i);
    assert SepAt(rest, i);
  }

  lemma NoSchemeAppears(rest: string)
    requires !HasSep(rest)
    ensures !HasSep(RedactRest(rest))
  {
    hide HasSep, Segments, SepIn, Slashed, Locate, AfterLast, KeyLike, RedactRest, RedactSegments, Lacks, EndsColon;
    RedactShape(rest);
    HostClean(rest);
    SegmentsClean(rest);
    CoreShape(rest);
    Transfer(Locate(rest).authority, Host(rest), PlainPath(rest), rest);
  }

  lemma Transfer(authority: string, host: string, plain: seq<string>, rest: string)
    requires !HasSep(rest) && authority + Slashed(plain) <= rest
    requires Lacks(authority, '/') && Lacks(host, '/') && (EndsColon(host) ==> EndsColon(authority))
    requires forall i :: 0 <= i < |plain| ==> Lacks(plain[i], '/')
    ensures !HasSep(host + Slashed(RedactSegments(plain)))
  {
    hide HasSep, SepIn, Slashed;
    forall i | 0 <= i < |plain|
      ensures Lacks(RedactSegments(plain)[i], '/')
    {
      RedactedSegment(plain[i]);
    }
    SepInExact(host, RedactSegments(plain));
    SepInExact(authority, plain);
    if SepIn(host, RedactSegments(plain)) {
      RedactedSepIn(authority, host, plain);
      PrefixSep(authority + Slashed(plain), rest);
    }
  }

  lemma SchemeUnique(s: string, p: nat)
    requires SepAt(s, p) && forall k :: 0 <= k < p ==> !SepAt(s, k)
    ensures SchemeEnd(s, 0) == Some(p)
  {}

  /** The scheme is still the first one once the rest is replaced. */
  lemma SchemeKept(scheme: string, rest: string, p: nat)
    requires |scheme| == p + 3 && SepAt(scheme, p) && forall k :: 0 <= k < p ==> !SepAt(scheme + rest, k)
    ensures SplitScheme(scheme + RedactRest(rest)) == (scheme, RedactRest(rest))
  {
    hide RedactRest;
    var out := scheme + RedactRest(rest);
    assert forall k :: 0 <= k < p ==> (SepAt(out, k) <==> SepAt(scheme + rest, k));
    SchemeUnique(out, p);
  }

  /** The output splits where the input does. */
  lemma RedactedSplit(url: string)
    ensures SplitScheme(RedactSpec(url)) == (SplitScheme(url).0, RedactRest(SplitScheme(url).1))
  {
    hide RedactRest;
    match SchemeEnd(url, 0) {
      case Some(p) =>
        assert url == url[..p + 3] + url[p + 3..];
        SchemeKept(url[..p + 3], url[p + 3..], p);
      case None =>
        NoSchemeAppears(url);
        assert RedactSpec(url) == RedactRest(url);
    }
  }

  /** Redacting twice is redacting once, for every string. */
  lemma RedactIdempotent(url: string)
    ensures RedactSpec(RedactSpec(url)) == RedactSpec(url)
  {
    hide RedactRest, SplitScheme;
    RedactedSplit(url);
    RedactRestTwice(SplitScheme(url).1);
  }

  // ------------------------------------------------------------------
  // A url from its parts
  // ------------------------------------------------------------------

  /** What becomes of a path segment: a key is 16 characters or more, or 8 or more with
      a digit among them. */
  function Masked(segment: string): string {
    if |segment| >= 16 then "<redacted>"
    else if |segment| >= 8 && exists i :: 0 <= i < |segment| && segment[i] in "0123456789" then "<redacted>"
    else segment
  }

  function MaskedSegments(segs: seq<string>): (out: seq<string>)
    ensures |out| == |segs|
  {
    seq(|segs|, i requires 0 <= i < |segs| => Masked(segs[i]))
  }

  lemma MasksKeys(segs: seq<string>)
    ensures RedactSegments(segs) == MaskedSegments(segs)
  {
    forall i | 0 <= i < |segs|
      ensures RedactSegment(segs[i]) == Masked(segs[i])
    {
      DigitsOf(segs[i]);
    }
  }

  lemma DigitsOf(s: string)
    ensures HasDigit(s) <==> exists i :: 0 <= i < |s| && s[i] in "0123456789"
  {
    forall i | 0 <= i < |s|
      ensures '0' <= s[i] <= '9' <==> s[i] in "0123456789"
    {
      DigitIn(s[i]);
    }
  }

  lemma DigitIn(c: char)
    ensures '0' <= c <= '9' <==> c in "0123456789"
  {
    var digits := "0123456789";
    if '0' <= c <= '9' {
      assert digits[c as int - '0' as int] == c;
    }
  }

  /** What follows a path: nothing, or a query or a fragment. */
  predicate Trailer(s: string) {
    s == "" || s[0] == '?' || s[0] == '#'
  }

  lemma LocateTrailer(core: string, trailer: string)
    requires Lacks(core, '?') && Lacks(core, '#') && Trailer(trailer)
    ensures Locate(core + trailer) == Locate(core)
  {
    hide Before;
    BeforeAll(core, {'?', '#'});
    if trailer == "" {
      assert core + trailer == core;
    } else {
      BeforeAt(core, trailer, {'?', '#'});
    }
  }

  lemma {:induction false} AfterLastAt(a: string, c: char, b: string)
    requires Lacks(b, c)
    ensures AfterLast(a + [c] + b, c) == b
  {
    var s := a + [c] + b;
    if b == "" {
      assert s[|s| - 1] == c;
    } else {
      var n := |b| - 1;
      assert s[..|s| - 1] == a + [c] + b[..n] && s[|s| - 1] == b[n];
      AfterLastAt(a, c, b[..n]);
    }
  }

  /** Nothing, or what ends in an '@'. */
  predicate UserPart(user: string) {
    user == "" || (Clean(user) && user[|user| - 1] == '@')
  }

  /** A url of a scheme, a user part, a host, path segments and a query or fragment keeps
      the scheme, the host and the segments that are no keys. */
  lemma RedactBuilt(scheme: string, user: string, host: string, segs: seq<string>, trailer: string)
    requires Lacks(scheme, ':') && UserPart(user) && Clean(host) && Lacks(host, '@') && Trailer(trailer)
    requires forall i :: 0 <= i < |segs| ==> Clean(segs[i])
    ensures RedactSpec(scheme + "://" + (user + host + Slashed(segs) + trailer))
         == scheme + "://" + (host + Slashed(MaskedSegments(segs)))
  {
    hide Locate, Segments, Slashed, RedactSegments, MaskedSegments, AfterLast, Clean, Lacks, Trailer, UserPart;
    var authority, rest := user + host, user + host + Slashed(segs) + trailer;
    SchemeSplit(scheme, rest);
    AuthorityIs(user, host);
    LocateShape(authority, segs);
    LocateTrailer(authority + Slashed(segs), trailer);
    RestBuilt(rest, authority, host, segs);
    MasksKeys(segs);
  }

  lemma RestBuilt(rest: string, authority: string, host: string, segs: seq<string>)
    requires Locate(rest).authority == authority && AfterLast(authority, '@') == host
    requires segs == [] ==> Locate(rest).path == None
    requires segs != [] ==> Locate(rest).path.Some? && Segments(Locate(rest).path.value) == segs
    ensures RedactRest(rest) == host + Slashed(RedactSegments(segs))
  {
    hide Locate, Segments, AfterLast;
    if segs == [] {
      assert RedactSegments(segs) == [];
      assert host + Slashed([]) == host + "";
    }
  }

  lemma AuthorityIs(user: string, host: string)
    requires UserPart(user) && Clean(host) && Lacks(host, '@')
    ensures Clean(user + host) && AfterLast(user + host, '@') == host
  {
    hide AfterLast;
    if user == "" {
      AfterLastAll(host, '@');
      assert user + host == host;
    } else {
      var n := |user| - 1;
      AfterLastAt(user[..n], '@', host);
      assert user + host == user[..n] + ['@'] + host;
    }
  }

  lemma SchemeSplit(scheme: string, rest: string)
    requires Lacks(scheme, ':')
    ensures SplitScheme(scheme + "://" + rest) == (scheme + "://", rest)
  {
    var url := scheme + "://" + rest;
    assert SepAt(url, |scheme|);
    assert forall k :: 0 <= k < |scheme| ==> url[k] == scheme[k] != ':';
    assert SchemeEnd(url, 0) == Some(|scheme|);
    assert url[..|scheme| + 3] == scheme + "://" && url[|scheme| + 3..] == rest;
  }

  // ------------------------------------------------------------------
  // The whole output
  // ------------------------------------------------------------------

  /** No query, no fragment, no userinfo and no key-like path segment behind a scheme. */
  ghost predicate DiscreetRest(rest: string) {
    var at := Locate(rest);
    && Lacks(rest, '?') && Lacks(rest, '#') && Lacks(at.authority, '@')
    && (at.path.Some? ==> forall i :: 0 <= i < |Segments(at.path.value)| ==> !KeyLike(Segments(at.path.value)[i]))
  }

  /** Nor any of them before a scheme's separator. */
  ghost predicate DiscreetScheme(scheme: string) {
    && Lacks(scheme, '?') && Lacks(scheme, '#') && Lacks(scheme, '@')
    && forall i :: 0 <= i < |Segments(scheme)| ==> !KeyLike(Segments(scheme)[i])
  }

  ghost predicate Discreet(url: string) {
    DiscreetScheme(SplitScheme(url).0) && DiscreetRest(SplitScheme(url).1)
  }

  /** Everything before the first "://" is kept as it is, so the whole output is
      discreet exactly when that part of the input is. */
  lemma RedactDiscreetIff(url: string)
    ensures Discreet(RedactSpec(url)) <==> DiscreetScheme(SplitScheme(url).0)
  {
    hide RedactRest, SplitScheme, DiscreetScheme, RedactSpec, Locate, Segments, KeyLike, Lacks;
    RedactedSplit(url);
    RedactRestClean(SplitScheme(url).1);
  }

  /** A url without a scheme of its own and another url in its query: nothing is dropped,
      neither the key nor the query. */
  lemma KeyBeforeSeparator()
    ensures var url := "h/v2/abcdefgh12345678?u=http://x";
            RedactSpec(url) == url && !Discreet(RedactSpec(url))
  {
    hide RedactRest, Locate, Segments, KeyLike, DiscreetRest;
    var url := "h/v2/abcdefgh12345678?u=http://x";
    assert SepAt(url, 28);
    assert forall k :: 0 <= k < 28 ==> url[k] != ':';
    assert SplitScheme(url) == (url[..31], url[31..]) && url[31..] == "x";
    PlainRest();
    assert url[..31] + "x" == url && SplitScheme(url).0[21] == '?';
  }

  lemma PlainRest()
    ensures RedactRest("x") == "x"
  {}
}
