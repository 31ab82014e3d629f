/** The evidence bundle a run writes: one raw file and one manifest entry a read. */
module Bundle {
  import opened Prelude
  import opened Client
  import opened Digits
  import opened Keys
  import opened Text

  // ------------------------------------------------------------------
  // Slugs
  // ------------------------------------------------------------------

  predicate IsAlphanumeric(c: char) {
    'a' <= c <= 'z' || 'A' <= c <= 'Z' || '0' <= c <= '9'
  }

  predicate EndsDash(s: string) {
    s != "" && s[|s| - 1] == '-'
  }

  /** Lowercase letters and digits, a dash for each run of anything else behind them. */
  function Dashed(s: string): string {
    if s == "" then ""
    else
      var out, c := Dashed(s[..|s| - 1]), s[|s| - 1];
      if IsAlphanumeric(c) then out + [LowerChar(c)]
      else if out != "" && !EndsDash(out) then out + "-"
      else out
  }

  function TrimDashes(s: string): string {
    if EndsDash(s) then TrimDashes(s[..|s| - 1]) else s
  }

  function Slug(s: string): string {
    TrimDashes(Dashed(s))
  }

  method MakeSlug(text: string) returns (out: string)
    ensures out == Slug(text)
  {
    out := "";
    var lastWasDash := false;
    for i := 0 to |text|
      invariant out == Dashed(text[..i])
      invariant lastWasDash == EndsDash(out)
    {
      var c := text[i];
      assert text[..i + 1][..i] == text[..i];
      if IsAlphanumeric(c) {
        out := out + [LowerChar(c)];
        lastWasDash := false;
      } else if !lastWasDash && out != "" {
        out := out + "-";
        lastWasDash := true;
      }
    }
    assert text[..|text|] == text;
    while EndsDash(out)
      invariant TrimDashes(out) == Slug(text)
      decreases |out|
    {
      out := out[..|out| - 1];
    }
  }

  /** Words of lowercase letters and digits, one dash between two words. */
  predicate Slugged(s: string) {
    && (forall i :: 0 <= i < |s| ==> s[i] == '-' || 'a' <= s[i] <= 'z' || '0' <= s[i] <= '9')
    && (forall i :: 0 <= i < |s| && s[i] == '-' ==> i > 0 && s[i - 1] != '-')
  }

  lemma {:induction false} DashedShape(s: string)
    ensures Slugged(Dashed(s))
  {
    if s != "" {
      DashedShape(s[..|s| - 1]);
    }
  }

  lemma {:induction false} TrimShape(s: string)
    requires Slugged(s)
    ensures Slugged(TrimDashes(s)) && !EndsDash(TrimDashes(s))
  {
    if EndsDash(s) {
      TrimShape(s[..|s| - 1]);
    }
  }

  lemma SluggedInit(s: string)
    requires Slugged(s) && s != ""
    ensures Slugged(s[..|s| - 1])
    ensures s[|s| - 1] == '-' || (IsAlphanumeric(s[|s| - 1]) && LowerChar(s[|s| - 1]) == s[|s| - 1])
    ensures s[|s| - 1] == '-' ==> s[..|s| - 1] != "" && !EndsDash(s[..|s| - 1])
  {}

  lemma {:induction false} DashedFixed(s: string)
    requires Slugged(s)
    ensures Dashed(s) == s
  {
    hide Slugged;
    if s != "" {
      var n := |s| - 1;
      SluggedInit(s);
      DashedFixed(s[..n]);
      assert s == s[..n] + [s[n]];
    }
  }

  /** A slug names a file inside raw/, and slugging it again changes nothing. */
  lemma SlugShape(s: string)
    ensures Slugged(Slug(s)) && !EndsDash(Slug(s)) && '/' !in Slug(s)
    ensures Slug(Slug(s)) == Slug(s)
  {
    DashedShape(s);
    TrimShape(Dashed(s));
    DashedFixed(Slug(s));
  }

  /** The ASCII letters and digits of a text, in order. */
  function Letters(s: string): string {
    if s == "" then ""
    else
      var c := s[|s| - 1];
      Letters(s[..|s| - 1]) + if 'a' <= c <= 'z' || 'A' <= c <= 'Z' || '0' <= c <= '9' then [c] else ""
  }

  lemma LettersSnoc(s: string, c: char)
    ensures Letters(s + [c]) == Letters(s) + if IsAlphanumeric(c) then [c] else ""
  {
    assert (s + [c])[..|s|] == s;
  }

  lemma {:induction false} DashedLetters(s: string)
    ensures Letters(Dashed(s)) == Lower(Letters(s))
  {
    hide Letters;
    LettersSnoc("", 'a');
    if s == "" {
      NoLetters();
    } else {
      var init, c := s[..|s| - 1], s[|s| - 1];
      DashedLetters(init);
      assert s == init + [c];
      LettersSnoc(init, c);
      LettersSnoc(Dashed(init), LowerChar(c));
      LettersSnoc(Dashed(init), '-');
      LowerConcat(Letters(init), [c]);
      assert Lower([c]) == [LowerChar(c)];
    }
  }

  lemma NoLetters()
    ensures Letters("") == "" && Lower("") == ""
  {}

  lemma {:induction false} TrimLetters(s: string)
    ensures Letters(TrimDashes(s)) == Letters(s)
  {
    hide Letters;
    if EndsDash(s) {
      var init := s[..|s| - 1];
      TrimLetters(init);
      assert s == init + ['-'];
      LettersSnoc(init, '-');
    }
  }

  /** A slug has exactly the letters and digits of the label, in lowercase and in order. */
  lemma SlugLetters(s: string)
    ensures Letters(Slug(s)) == Lower(Letters(s))
  {
    DashedLetters(s);
    TrimLetters(Dashed(s));
  }

  // ------------------------------------------------------------------
  // File names
  // ------------------------------------------------------------------

  /** The index in three digits at least. */
  function Padded(n: nat): string {
    var s := Decimal(n);
    if |s| == 1 then "00" + s else if |s| == 2 then "0" + s else s
  }

  predicate AllDigits(s: string) {
    forall i :: 0 <= i < |s| ==> IsDecChar(s[i])
  }

  lemma LeadingZero(s: string)
    requires AllDigits(s)
    ensures AllDigits("0" + s) && DecValue("0" + s) == DecValue(s)
  {
    BeConcat(10, [0], DecDigits(s));
    BeOne(10, 0);
    assert DecDigits("0" + s) == [0] + DecDigits(s);
  }

  lemma PaddedValue(n: nat)
    ensures AllDigits(Padded(n)) && DecValue(Padded(n)) == n
  {
    hide Decimal, DecValue, Canonical;
    var s := Decimal(n);
    DecimalCanonical(n);
    CanonicalDigits(s);
    LeadingZero(s);
    LeadingZero("0" + s);
    assert "00" + s == "0" + ("0" + s);
  }

  /** The index in a file name has three digits, or as many as it needs from 1000 on. */
  lemma PaddedShape(n: nat)
    ensures n < 1000 ==> |Padded(n)| == 3
    ensures n >= 1000 ==> Padded(n) == Decimal(n)
  {
    if n > 0 {
      DigitCount(n);
    }
  }

  lemma DigitCount(n: nat)
    requires n > 0
    ensures |Decimal(n)| == 1 <==> n < 10
    ensures |Decimal(n)| == 2 <==> 10 <= n < 100
    ensures |Decimal(n)| == 3 <==> 100 <= n < 1000
  {
    var a, b, c := n / 10, n / 100, n / 1000;
    assert Minimal(10, n) == Minimal(10, a) + [n % 10];
    if a > 0 {
      assert a / 10 == b && Minimal(10, a) == Minimal(10, b) + [a % 10];
    }
    if b > 0 {
      assert b / 10 == c && Minimal(10, b) == Minimal(10, c) + [b % 10];
    }
    if c > 0 {
      assert Minimal(10, c) == Minimal(10, c / 10) + [c % 10];
    }
  }

  lemma CanonicalDigits(s: string)
    requires Canonical(s)
    ensures AllDigits(s)
  {}

  function FileName(index: nat, labelText: string): string {
    "raw/" + (Padded(index) + ("-" + (Slug(labelText) + ".json")))
  }

  /** The first dash ends the digits before it. */
  lemma DigitsSplit(a: string, x: string, b: string, y: string)
    requires AllDigits(a) && AllDigits(b) && a + ("-" + x) == b + ("-" + y)
    ensures a == b
  {
    var s, t := a + ("-" + x), b + ("-" + y);
    assert s[|a|] == '-' && t[|b|] == '-';
    assert forall i :: 0 <= i < |a| ==> s[i] == a[i];
    assert forall i :: 0 <= i < |b| ==> t[i] == b[i];
    assert s[..|a|] == a && t[..|b|] == b;
  }

  /** Two reads of one bundle never share a file. */
  lemma FileNamesDiffer(i: nat, labelText: string, j: nat, labelText': string)
    requires FileName(i, labelText) == FileName(j, labelText')
    ensures i == j
  {
    hide Padded, Slug, DecValue;
    PaddedValue(i);
    PaddedValue(j);
    var x, y := Slug(labelText) + ".json", Slug(labelText') + ".json";
    assert FileName(i, labelText)[4..] == Padded(i) + ("-" + x);
    assert FileName(j, labelText')[4..] == Padded(j) + ("-" + y);
    DigitsSplit(Padded(i), x, Padded(j), y);
  }

  // ------------------------------------------------------------------
  // The writer
  // ------------------------------------------------------------------

  datatype Entry = Entry(
    index: nat, file: string, sha256: string, byteLen: nat, labelText: string, jsonRpc: bool, methodName: string,
    block: string, to: string, calldata: string, preimage: string, cacheKey: string, hit: bool, endpoint: string,
    firstStoredUtc: string)

  function EntryFor(hash: Hash, chainId: nat, index: nat, f: Fetched): Entry {
    var d := f.descriptor;
    Entry(index, FileName(index, d.labelText), hash(f.body), |f.body|, d.labelText, d.wire.JsonRpc?, d.methodName,
          d.block, d.to, d.calldata, KeyPreimage(chainId, d), f.key, f.cacheHit, f.endpoint, f.storedUtc)
  }

  /** The manifest and the raw files hold exactly these reads, in this order. */
  ghost predicate Holds(hash: Hash, chainId: nat, entries: seq<Entry>, files: map<string, string>,
                        trace: seq<Fetched>) {
    && |entries| == |trace|
    && forall i :: 0 <= i < |entries| ==> HoldsAt(hash, chainId, entries, files, trace, i)
  }

  ghost predicate HoldsAt(hash: Hash, chainId: nat, entries: seq<Entry>, files: map<string, string>,
                          trace: seq<Fetched>, i: nat)
    requires i < |entries| == |trace|
  {
    && entries[i] == EntryFor(hash, chainId, i + 1, trace[i])
    && entries[i].file in files && files[entries[i].file] == trace[i].body
  }

  /** No entry so far uses the next file name. */
  lemma NameIsNew(hash: Hash, chainId: nat, entries: seq<Entry>, files: map<string, string>, trace: seq<Fetched>,
                  labelText: string)
    requires Holds(hash, chainId, entries, files, trace)
    ensures forall i :: 0 <= i < |entries| ==> entries[i].file != FileName(|entries| + 1, labelText)
  {
    hide FileName;
    forall i | 0 <= i < |entries|
      ensures entries[i].file != FileName(|entries| + 1, labelText)
    {
      assert HoldsAt(hash, chainId, entries, files, trace, i);
      if entries[i].file == FileName(|entries| + 1, labelText) {
        FileNamesDiffer(i + 1, trace[i].descriptor.labelText, |entries| + 1, labelText);
      }
    }
  }

  /** Files that no entry names do not matter. */
  lemma OtherFiles(hash: Hash, chainId: nat, entries: seq<Entry>, files: map<string, string>,
                   files': map<string, string>,
                   name: string, trace: seq<Fetched>)
    requires Holds(hash, chainId, entries, files, trace) && files - {name} == files' - {name}
    requires forall i :: 0 <= i < |entries| ==> entries[i].file != name
    ensures Holds(hash, chainId, entries, files', trace)
  {
    hide EntryFor;
    forall i | 0 <= i < |entries|
      ensures HoldsAt(hash, chainId, entries, files', trace, i)
    {
      assert HoldsAt(hash, chainId, entries, files, trace, i);
      var file := entries[i].file;
      assert file in files - {name} && file in files' - {name};
      assert (files - {name})[file] == (files' - {name})[file];
    }
  }

  lemma OneMore(hash: Hash, chainId: nat, entries: seq<Entry>, files: map<string, string>, trace: seq<Fetched>,
                f: Fetched)
    requires Holds(hash, chainId, entries, files, trace)
    requires var e := EntryFor(hash, chainId, |entries| + 1, f);
             e.file in files && files[e.file] == f.body
    ensures Holds(hash, chainId, entries + [EntryFor(hash, chainId, |entries| + 1, f)], files, trace + [f])
  {
    hide EntryFor;
    var entries' := entries + [EntryFor(hash, chainId, |entries| + 1, f)];
    forall i | 0 <= i < |entries'|
      ensures HoldsAt(hash, chainId, entries', files, trace + [f], i)
    {
      if i < |entries| {
        assert HoldsAt(hash, chainId, entries, files, trace, i);
      }
    }
  }

  class BundleWriter {
    const chainId: nat
    const hash: Hash
    var entries: seq<Entry>
    /** The raw files, by their path inside the bundle. */
    var files: map<string, string>

    constructor (chainId: nat, hash: Hash)
      ensures this.chainId == chainId && this.hash == hash && entries == [] && files == map[]
      ensures Holds(hash, chainId, entries, files, [])
    {
      this.chainId, this.hash, entries, files := chainId, hash, [], map[];
    }

    /** Writes the raw file, then the entry.  A write that fails adds no entry and
        harms no file of another one. */
    method Record(f: Fetched, ghost trace: seq<Fetched>) returns (ok: bool)
      requires Holds(hash, chainId, entries, files, trace)
      modifies this
      ensures Holds(hash, chainId, entries, files, if ok then trace + [f] else trace)
      ensures entries == if ok then old(entries) + [EntryFor(hash, chainId, |old(entries)| + 1, f)] else old(entries)
    {
      hide Holds, Padded, Slug, KeyPreimage;
      var index := |entries| + 1;
      var d := f.descriptor;
      var slug := MakeSlug(d.labelText);
      var name := "raw/" + (Padded(index) + ("-" + (slug + ".json")));
      NameIsNew(hash, chainId, entries, files, trace, d.labelText);
      ghost var before := files;
      var written: bool := *;
      if !written {
        var left: Option<string> := *;
        files := match left case Some(text) => files[name := text] case None => files - {name};
        assert files - {name} == before - {name};
        OtherFiles(hash, chainId, entries, before, files, name, trace);
        return false;
      }
      files := files[name := f.body];
      assert files - {name} == before - {name};
      OtherFiles(hash, chainId, entries, before, files, name, trace);
      OneMore(hash, chainId, entries, files, trace, f);
      entries := entries + [Entry(
        index, name, hash(f.body), |f.body|, d.labelText, d.wire.JsonRpc?, d.methodName, d.block, d.to, d.calldata,
        KeyPreimage(chainId, d), f.key, f.cacheHit, f.endpoint, f.storedUtc)];
      ok := true;
    }
  }
}
