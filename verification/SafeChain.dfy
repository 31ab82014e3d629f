/**
 Unwrapping of nested Safe executions: the call a transaction finally makes and
 the chain of callers it went through.
 */
module SafeChain {
  import opened Prelude
  import opened Text
  import opened Calldata

  const MAX_LAYERS: nat := 6

  datatype Unwrapped = Unwrapped(target: string, selector: string, calldata: string, chain: seq<string>)

  predicate IsExecCall(input: string) {
    SelectorOf(input) == EXEC_TRANSACTION
  }

  /** The call left after at most `layers` more layers; a Safe joins the chain
      when what it executes is a Safe execution again. */
  function Unwrap(call: Call, chain: seq<string>, layers: nat): Option<Unwrapped>
    decreases layers
  {
    if layers == 0 || !IsExecCall(call.data) then
      Some(Unwrapped(call.to, SelectorOf(call.data), call.data, chain))
    else
      var inner :- DecodeSafe(call.data);
      Unwrap(inner, if IsExecCall(inner.data) then chain + [inner.to] else chain, layers - 1)
  }

  function UnwrapSpec(from: string, to: string, input: string): Option<Unwrapped> {
    if !IsExecCall(input) then None
    else Unwrap(Call(Lower(to), input), [Lower(from), Lower(to)], MAX_LAYERS)
  }

  method UnwrapSafeChain(from: string, to: string, input: string) returns (r: Option<Unwrapped>)
    ensures r == UnwrapSpec(from, to, input)
  {
    hide DecodeSafe, SelectorOf;
    var chain := [Lower(from), Lower(to)];
    var current := input;
    var target := Lower(to);
    var depth := 0;
    while IsExecCall(current) && depth < MAX_LAYERS
      invariant depth <= MAX_LAYERS
      invariant depth == 0 ==> current == input
      invariant depth > 0 ==> IsExecCall(input)
      invariant Unwrap(Call(Lower(to), input), [Lower(from), Lower(to)], MAX_LAYERS)
             == Unwrap(Call(target, current), chain, MAX_LAYERS - depth)
    {
      var inner :- DecodeSafe(current);
      if IsExecCall(inner.data) {
        chain := chain + [inner.to];
      }
      target := inner.to;
      current := inner.data;
      depth := depth + 1;
    }
    if depth == 0 {
      return None;
    }
    r := Some(Unwrapped(target, SelectorOf(current), current, chain));
  }

  // ------------------------------------------------------------------
  // Nested layers
  // ------------------------------------------------------------------

  /** One Safe execution in any layout: it calls `target` with `data`. */
  datatype Layer = Layer(input: string, args: string, at: nat, target: string, data: string) {
    predicate Valid() {
      IsExec(input, args, at, target, data)
    }

    function Target(): string {
      Lower("0x" + target)
    }
  }

  /** Each layer executes the next, and the last one the innermost call. */
  predicate Nested(layers: seq<Layer>, innermost: string) {
    forall i :: 0 <= i < |layers| ==> Executes(layers, innermost, i)
  }

  predicate Executes(layers: seq<Layer>, innermost: string, i: nat)
    requires i < |layers|
  {
    layers[i].Valid() && "0x" + layers[i].data == InputAt(layers, innermost, i + 1)
  }

  function InputAt(layers: seq<Layer>, innermost: string, i: nat): string {
    if i < |layers| then layers[i].input else innermost
  }

  function Targets(layers: seq<Layer>): (ts: seq<string>)
    ensures |ts| == |layers|
  {
    seq(|layers|, i requires 0 <= i < |layers| => layers[i].Target())
  }

  /** Peeling n of the layers leaves the call the last peeled one makes. */
  lemma {:induction false} PeelLayers(layers: seq<Layer>, innermost: string, to: string, chain: seq<string>, k: nat,
                                      n: nat)
    requires Nested(layers, innermost) && k < n <= |layers|
    requires n == |layers| ==> !IsExecCall(innermost)
    ensures Unwrap(Call(to, layers[k].input), chain, n - k)
         == Some(Unwrapped(layers[n - 1].Target(), SelectorOf(InputAt(layers, innermost, n)),
                           InputAt(layers, innermost, n),
                           chain + Targets(layers)[k..if n == |layers| then n - 1 else n]))
    decreases n - k
  {
    hide DecodeSafe, IsExec, SelectorOf, Lower;
    var t, ts := layers[k].Target(), Targets(layers);
    var next := InputAt(layers, innermost, k + 1);
    var end := if n == |layers| then n - 1 else n;
    assert Executes(layers, innermost, k);
    LayerDecodes(layers[k]);
    if k + 1 < |layers| {
      assert Executes(layers, innermost, k + 1);
      LayerDecodes(layers[k + 1]);
    }
    if k + 1 < n {
      PeelLayers(layers, innermost, t, chain + [t], k + 1, n);
      SliceHead(chain, ts, k, end);
    } else if n < |layers| {
      assert ts[k..end] == [t];
    } else {
      assert chain + ts[k..end] == chain;
    }
  }

  lemma SliceHead(chain: seq<string>, ts: seq<string>, k: nat, end: nat)
    requires k < end <= |ts|
    ensures chain + [ts[k]] + ts[k + 1..end] == chain + ts[k..end]
  {
    assert ts[k..end] == [ts[k]] + ts[k + 1..end];
  }

  lemma LayerDecodes(layer: Layer)
    requires layer.Valid()
    ensures IsExecCall(layer.input)
    ensures DecodeSafe(layer.input) == Some(Call(layer.Target(), "0x" + layer.data))
  {
    SafeInverts(layer.input, layer.args, layer.at, layer.target, layer.data);
    CallParts(layer.input, EXEC_TRANSACTION, layer.args);
  }

  /** A call under d layers, 1 <= d <= 6, is recovered whole, with the sender,
      the outer Safe and every inner Safe in the chain. */
  lemma UnwrapInverts(from: string, to: string, layers: seq<Layer>, innermost: string)
    requires Nested(layers, innermost) && 1 <= |layers| <= 6 && !IsExecCall(innermost)
    ensures UnwrapSpec(from, to, layers[0].input) == Some(Unwrapped(
      layers[|layers| - 1].Target(), SelectorOf(innermost), innermost,
      [Lower(from), Lower(to)] + Targets(layers)[..|layers| - 1]))
  {
    hide DecodeSafe, IsExec, SelectorOf;
    assert Executes(layers, innermost, 0);
    LayerDecodes(layers[0]);
    PeelLayers(layers, innermost, Lower(to), [Lower(from), Lower(to)], 0, |layers|);
    UnwrapEarly(Call(Lower(to), layers[0].input), [Lower(from), Lower(to)], |layers|, MAX_LAYERS);
  }

  /** Room for more layers changes nothing once the innermost call is reached. */
  lemma {:induction false} UnwrapEarly(call: Call, chain: seq<string>, n: nat, m: nat)
    requires n <= m && Unwrap(call, chain, n).Some? && !IsExecCall(Unwrap(call, chain, n).value.calldata)
    ensures Unwrap(call, chain, m) == Unwrap(call, chain, n)
    decreases n
  {
    hide DecodeSafe, SelectorOf;
    if n > 0 && IsExecCall(call.data) {
      var inner := DecodeSafe(call.data).value;
      UnwrapEarly(inner, if IsExecCall(inner.data) then chain + [inner.to] else chain, n - 1, m - 1);
    }
  }

  /** Beyond six layers the walk stops at the seventh execTransaction. */
  lemma UnwrapStopsAtSix(from: string, to: string, layers: seq<Layer>, innermost: string)
    requires Nested(layers, innermost) && |layers| > 6
    ensures UnwrapSpec(from, to, layers[0].input) == Some(Unwrapped(
      layers[5].Target(), "0x6a761202", layers[6].input, [Lower(from), Lower(to)] + Targets(layers)[..6]))
  {
    hide DecodeSafe, IsExec, SelectorOf;
    assert Executes(layers, innermost, 0) && Executes(layers, innermost, MAX_LAYERS);
    LayerDecodes(layers[0]);
    LayerDecodes(layers[MAX_LAYERS]);
    PeelLayers(layers, innermost, Lower(to), [Lower(from), Lower(to)], 0, MAX_LAYERS);
  }

  /** The calldata after k layers, when each of them is a Safe call that decodes. */
  function Peeled(input: string, k: nat): Option<string> {
    if k == 0 then Some(input)
    else
      var outer :- Peeled(input, k - 1);
      if !IsExecCall(outer) then None
      else
        var inner :- DecodeSafe(outer);
        Some(inner.data)
  }

  /** Layer k is reached and is a Safe call that does not decode. */
  predicate FailsAt(input: string, k: nat) {
    Peeled(input, k).Some? && IsExecCall(Peeled(input, k).value) && DecodeSafe(Peeled(input, k).value) == None
  }

  lemma {:induction false} PeeledInner(input: string, k: nat)
    requires IsExecCall(input) && DecodeSafe(input).Some?
    ensures Peeled(input, k + 1) == Peeled(DecodeSafe(input).value.data, k)
  {
    hide DecodeSafe, SelectorOf;
    if k > 0 {
      PeeledInner(input, k - 1);
    } else {
      assert Peeled(input, 0) == Some(input);
    }
  }

  lemma {:induction false} UnwrapFails(call: Call, chain: seq<string>, layers: nat)
    ensures Unwrap(call, chain, layers) == None <==> exists k :: 0 <= k < layers && FailsAt(call.data, k)
    decreases layers
  {
    hide DecodeSafe, SelectorOf;
    if layers == 0 {
    } else if !IsExecCall(call.data) {
      forall k | 0 <= k < layers
        ensures !FailsAt(call.data, k)
      {
        NotPeeled(call.data, k);
      }
    } else if DecodeSafe(call.data) == None {
      assert FailsAt(call.data, 0);
    } else {
      var inner := DecodeSafe(call.data).value;
      UnwrapFails(inner, if IsExecCall(inner.data) then chain + [inner.to] else chain, layers - 1);
      forall k: nat
        ensures FailsAt(call.data, k + 1) <==> FailsAt(inner.data, k)
      {
        PeeledInner(call.data, k);
      }
      assert !FailsAt(call.data, 0);
      if k :| 0 <= k < layers && FailsAt(call.data, k) {
        assert FailsAt(inner.data, k - 1);
      }
      if k :| 0 <= k < layers - 1 && FailsAt(inner.data, k) {
        assert FailsAt(call.data, k + 1);
      }
    }
  }

  lemma {:induction false} NotPeeled(input: string, k: nat)
    requires !IsExecCall(input)
    ensures k > 0 ==> Peeled(input, k) == None
  {
    if k > 1 {
      NotPeeled(input, k - 1);
    }
  }

  /** None exactly when the outer call is no Safe call or one of the first six
      layers reached does not decode. */
  lemma UnwrapNone(from: string, to: string, input: string)
    ensures UnwrapSpec(from, to, input) == None
        <==> !IsExecCall(input) || exists k :: 0 <= k < 6 && FailsAt(input, k)
  {
    hide DecodeSafe, SelectorOf;
    UnwrapFails(Call(Lower(to), input), [Lower(from), Lower(to)], MAX_LAYERS);
  }
}
