/**
 What a spend to be signed is shown as (crates/dig-app-core/src/decode.rs): its native outputs in order, the
 total it spends and its fee. Decoding bytes and running a puzzle are facts about each spend.
 */
module SpendDecode {
  import opened Wrappers

  const U64_MAX: nat := 0xFFFF_FFFF_FFFF_FFFF

  type u64 = n: nat | n <= U64_MAX

  datatype Condition<H> = CreateCoin(puzzleHash: H, amount: u64) | OtherCondition

  /**
   One coin spend: its coin's amount; whether its puzzle decodes and is the standard one; and the conditions
   its solution leads to, if the solution decodes and the puzzle runs on it.
   */
  datatype Spend<H> = Spend(amount: u64, puzzleDecodes: bool, standard: bool, conditions: Option<seq<Condition<H>>>) {

    predicate Native() { puzzleDecodes && standard }

    predicate Fails() { !puzzleDecodes || (standard && conditions.None?) }
  }

  datatype Output = Output(recipient: string, amount: u64)

  datatype DecodedTx = DecodedTx(outputs: seq<Output>, totalInput: u64, fee: u64, allInputsNativeXch: bool)

  datatype DecodeReject = UnknownType | BadPayload

  function SaturatingAdd(a: u64, b: u64): u64 {
    if a + b <= U64_MAX then a + b else U64_MAX
  }

  function SaturatingSub(a: u64, b: u64): u64 {
    if a >= b then a - b else 0
  }

  function Clamped(n: nat): u64 {
    if n <= U64_MAX then n else U64_MAX
  }

  // ---------------------------------------------------------------- what there is to show

  /** The coins created by `conditions`, in order, with each recipient as `render` writes it. */
  function Created<H>(conditions: seq<Condition<H>>, render: H -> string): seq<Output> {
    if conditions == [] then []
    else
      var last := conditions[|conditions| - 1];
      Created(conditions[..|conditions| - 1], render)
      + if last.CreateCoin? then [Output(render(last.puzzleHash), last.amount)] else []
  }

  function NativeOutputs<H>(spend: Spend<H>, render: H -> string): seq<Output> {
    if spend.Native() && spend.conditions.Some? then Created(spend.conditions.value, render) else []
  }

  function Outputs<H>(spends: seq<Spend<H>>, render: H -> string): seq<Output> {
    if spends == [] then []
    else Outputs(spends[..|spends| - 1], render) + NativeOutputs(spends[|spends| - 1], render)
  }

  function TotalOf(outputs: seq<Output>): nat {
    if outputs == [] then 0 else TotalOf(outputs[..|outputs| - 1]) + outputs[|outputs| - 1].amount
  }

  function Inputs<H>(spends: seq<Spend<H>>): nat {
    if spends == [] then 0 else Inputs(spends[..|spends| - 1]) + spends[|spends| - 1].amount
  }

  predicate AllNative<H>(spends: seq<Spend<H>>) {
    forall i :: 0 <= i < |spends| ==> spends[i].Native()
  }

  predicate AnyFails<H>(spends: seq<Spend<H>>) {
    exists i :: 0 <= i < |spends| && spends[i].Fails()
  }

  /** The whole of what is shown, over unbounded sums clamped at the end. */
  function Shown<H>(spends: seq<Spend<H>>, render: H -> string): DecodedTx {
    var outputs := Outputs(spends, render);
    var totalInput := Clamped(Inputs(spends));
    DecodedTx(outputs, totalInput,
              if AllNative(spends) then SaturatingSub(totalInput, Clamped(TotalOf(outputs))) else 0,
              AllNative(spends))
  }

  // ---------------------------------------------------------------- the folds

  method NativeXchOutputs<H>(spend: Spend<H>, render: H -> string) returns (r: Result<Option<seq<Output>>, DecodeReject>)
    ensures r == if spend.Fails() then Err(BadPayload)
                 else if spend.Native() then Ok(Some(NativeOutputs(spend, render)))
                 else Ok(None)
  {
    if !spend.puzzleDecodes {
      return Err(BadPayload);
    }
    if !spend.standard {
      return Ok(None);
    }
    if spend.conditions.None? {
      return Err(BadPayload);
    }
    var conditions := spend.conditions.value;
    var outputs: seq<Output> := [];
    for i := 0 to |conditions|
      invariant outputs == Created(conditions[..i], render)
    {
      assert conditions[..i + 1][..i] == conditions[..i];
      var condition := conditions[i];
      if condition.CreateCoin? {
        outputs := outputs + [Output(render(condition.puzzleHash), condition.amount)];
      }
    }
    assert conditions[..|conditions|] == conditions;
    return Ok(Some(outputs));
  }

  lemma NextOutput(done: seq<Output>, next: Output)
    ensures TotalOf(done + [next]) == TotalOf(done) + next.amount
    ensures Clamped(TotalOf(done + [next])) == SaturatingAdd(Clamped(TotalOf(done)), next.amount)
  {
    assert (done + [next])[..|done|] == done;
  }

  lemma NextNative<H>(spends: seq<Spend<H>>, i: nat)
    requires i < |spends|
    ensures AllNative(spends[..i + 1]) <==> AllNative(spends[..i]) && spends[i].Native()
  {
    assert forall j :: 0 <= j < i ==> spends[..i + 1][j] == spends[..i][j];
    assert spends[..i + 1][i] == spends[i];
  }

  lemma NextSpend<H>(spends: seq<Spend<H>>, i: nat, render: H -> string)
    requires i < |spends|
    ensures Outputs(spends[..i + 1], render) == Outputs(spends[..i], render) + NativeOutputs(spends[i], render)
    ensures Clamped(Inputs(spends[..i + 1])) == SaturatingAdd(Clamped(Inputs(spends[..i])), spends[i].amount)
    ensures AllNative(spends[..i + 1]) <==> AllNative(spends[..i]) && spends[i].Native()
  {
    hide NativeOutputs, AllNative;
    var next := spends[..i + 1];
    assert next[..i] == spends[..i] && next[i] == spends[i];
    NextNative(spends, i);
  }

  /** Decodes a bundle, or `None` where its bytes are not one. A spend that fails leaves nothing to show. */
  method DecodeSpend<H>(bundle: Option<seq<Spend<H>>>, render: H -> string) returns (r: Result<DecodedTx, DecodeReject>)
    ensures r == if bundle.None? || AnyFails(bundle.value) then Err(BadPayload) else Ok(Shown(bundle.value, render))
  {
    hide Outputs, NativeOutputs, TotalOf, Inputs, AllNative, SaturatingAdd, Clamped;
    if bundle.None? {
      return Err(BadPayload);
    }
    var spends := bundle.value;
    var outputs: seq<Output> := [];
    var totalInput: u64, totalCreated: u64 := 0, 0;
    var allInputsNativeXch := true;
    NothingYet(spends[..0], render);
    for i := 0 to |spends|
      invariant forall j :: 0 <= j < i ==> !spends[j].Fails()
      invariant outputs == Outputs(spends[..i], render)
      invariant totalInput == Clamped(Inputs(spends[..i]))
      invariant totalCreated == Clamped(TotalOf(outputs))
      invariant allInputsNativeXch <==> AllNative(spends[..i])
    {
      var spend := spends[i];
      NextSpend(spends, i, render);
      totalInput := SaturatingAdd(totalInput, spend.amount);
      var decoded :- NativeXchOutputs(spend, render);
      match decoded {
        case Some(spendOutputs) =>
          var before := outputs;
          for k := 0 to |spendOutputs|
            invariant outputs == before + spendOutputs[..k]
            invariant totalCreated == Clamped(TotalOf(outputs))
          {
            var output := spendOutputs[k];
            NextOutput(outputs, output);
            totalCreated := SaturatingAdd(totalCreated, output.amount);
            outputs := outputs + [output];
          }
        case None =>
          ForeignShowsNothing(spend, render);
          allInputsNativeXch := false;
      }
    }
    assert spends[..|spends|] == spends;
    var fee := if allInputsNativeXch then SaturatingSub(totalInput, totalCreated) else 0;
    return Ok(DecodedTx(outputs, totalInput, fee, allInputsNativeXch));
  }

  lemma NothingYet<H>(none: seq<Spend<H>>, render: H -> string)
    requires none == []
    ensures Outputs(none, render) == [] && Clamped(Inputs(none)) == 0 && Clamped(TotalOf([])) == 0 && AllNative(none)
  {
  }

  lemma ForeignShowsNothing<H>(spend: Spend<H>, render: H -> string)
    requires !spend.Native()
    ensures NativeOutputs(spend, render) == []
  {
  }

  const SPEND_PAYLOAD_TYPE: string := "spend"

  method Decode<H>(payloadType: string, bundle: Option<seq<Spend<H>>>, render: H -> string)
    returns (r: Result<DecodedTx, DecodeReject>)
    ensures r == if payloadType != "spend" then Err(UnknownType)
                 else if bundle.None? || AnyFails(bundle.value) then Err(BadPayload)
                 else Ok(Shown(bundle.value, render))
  {
    if payloadType != SPEND_PAYLOAD_TYPE {
      return Err(UnknownType);
    }
    r := DecodeSpend(bundle, render);
  }

  // ---------------------------------------------------------------- what is shown, and what it adds up to

  /** One bundle after another shows the one's outputs after the other's, and spends the two together. */
  lemma {:induction false} ShownInOrder<H>(a: seq<Spend<H>>, b: seq<Spend<H>>, render: H -> string)
    ensures Outputs(a + b, render) == Outputs(a, render) + Outputs(b, render)
    ensures Inputs(a + b) == Inputs(a) + Inputs(b)
  {
    hide NativeOutputs;
    if b == [] {
      assert a + b == a;
    } else {
      var n := |b| - 1;
      var last := NativeOutputs(b[n], render);
      assert (a + b)[..|a + b| - 1] == a + b[..n] && (a + b)[|a + b| - 1] == b[n];
      ShownInOrder(a, b[..n], render);
      assert Outputs(a, render) + Outputs(b[..n], render) + last == Outputs(a, render) + (Outputs(b[..n], render) + last);
    }
  }

  /** One list of conditions after another creates the one's coins after the other's. */
  lemma {:induction false} CreatedInOrder<H>(a: seq<Condition<H>>, b: seq<Condition<H>>, render: H -> string)
    ensures Created(a + b, render) == Created(a, render) + Created(b, render)
  {
    if b == [] {
      assert a + b == a;
    } else {
      var n := |b| - 1;
      assert (a + b)[..|a + b| - 1] == a + b[..n] && (a + b)[|a + b| - 1] == b[n];
      CreatedInOrder(a, b[..n], render);
      var last := if b[n].CreateCoin? then [Output(render(b[n].puzzleHash), b[n].amount)] else [];
      assert Created(a, render) + Created(b[..n], render) + last == Created(a, render) + (Created(b[..n], render) + last);
    }
  }

  /** A condition that creates a coin shows that one coin; any other shows nothing. With the order, that is all. */
  lemma CreatedOneByOne<H>(h: H, amount: u64, before: seq<Condition<H>>, after: seq<Condition<H>>, render: H -> string)
    ensures Created(before + [CreateCoin(h, amount)] + after, render)
         == Created(before, render) + [Output(render(h), amount)] + Created(after, render)
    ensures Created(before + [OtherCondition] + after, render) == Created(before, render) + Created(after, render)
    ensures Created<H>([], render) == []
  {
    OneCondition(h, amount, render);
    hide Created;
    CreatedInOrder(before + [CreateCoin(h, amount)], after, render);
    CreatedInOrder(before, [CreateCoin(h, amount)], render);
    CreatedInOrder(before + [OtherCondition], after, render);
    CreatedInOrder(before, [OtherCondition], render);
    assert Created(before, render) + [] == Created(before, render);
  }

  lemma OneCondition<H>(h: H, amount: u64, render: H -> string)
    ensures Created([CreateCoin(h, amount)], render) == [Output(render(h), amount)]
    ensures Created<H>([OtherCondition], render) == [] && Created<H>([], render) == []
  {
    var one, other: seq<Condition<H>> := [CreateCoin(h, amount)], [OtherCondition];
    assert one[..0] == [] && other[..0] == [];
    assert [] + [Output(render(h), amount)] == [Output(render(h), amount)];
  }

  /** The amounts of the coins `conditions` create. */
  function Amounts<H>(conditions: seq<Condition<H>>): nat {
    if conditions == [] then 0
    else
      var last := conditions[|conditions| - 1];
      Amounts(conditions[..|conditions| - 1]) + if last.CreateCoin? then last.amount else 0
  }

  lemma {:induction false} CreatedAddsUp<H>(conditions: seq<Condition<H>>, render: H -> string)
    ensures TotalOf(Created(conditions, render)) == Amounts(conditions)
  {
    if conditions != [] {
      var n := |conditions| - 1;
      CreatedAddsUp(conditions[..n], render);
      if conditions[n].CreateCoin? {
        NextOutput(Created(conditions[..n], render), Output(render(conditions[n].puzzleHash), conditions[n].amount));
      } else {
        assert Created(conditions[..n], render) + [] == Created(conditions[..n], render);
      }
    }
  }

  lemma {:induction false} TotalOfAll(a: seq<Output>, b: seq<Output>)
    ensures TotalOf(a + b) == TotalOf(a) + TotalOf(b)
  {
    if b == [] {
      assert a + b == a;
    } else {
      var n := |b| - 1;
      assert (a + b)[..|a + b| - 1] == a + b[..n];
      TotalOfAll(a, b[..n]);
    }
  }

  lemma InEither(a: seq<Output>, b: seq<Output>, output: Output)
    ensures output in a + b <==> output in a || output in b
  {
  }

  /** An output is shown exactly when a native spend creates it. */
  lemma {:induction false} ShownExactly<H>(spends: seq<Spend<H>>, render: H -> string, output: Output)
    ensures output in Outputs(spends, render) <==>
            exists i :: 0 <= i < |spends| && output in NativeOutputs(spends[i], render)
  {
    hide NativeOutputs;
    if spends != [] {
      var n := |spends| - 1;
      ShownExactly(spends[..n], render, output);
      InEither(Outputs(spends[..n], render), NativeOutputs(spends[n], render), output);
      assert forall i :: 0 <= i < n ==> spends[..n][i] == spends[i];
    }
  }

  lemma {:induction false} CreatedExactly<H>(conditions: seq<Condition<H>>, render: H -> string, output: Output)
    ensures output in Created(conditions, render) <==>
            exists h, amount :: CreateCoin(h, amount) in conditions && output == Output(render(h), amount)
  {
    if conditions != [] {
      var n := |conditions| - 1;
      CreatedExactly(conditions[..n], render, output);
      assert forall c :: c in conditions <==> c in conditions[..n] || c == conditions[n];
      if conditions[n].CreateCoin? {
        assert CreateCoin(conditions[n].puzzleHash, conditions[n].amount) in conditions;
      }
    }
  }

  /** Of a foreign spend only the amount counts: whatever its solution leads to, the same is shown. */
  lemma ForeignIsNeverRun<H>(spends: seq<Spend<H>>, i: nat, run: Option<seq<Condition<H>>>, render: H -> string)
    requires i < |spends| && !spends[i].standard
    ensures var other := spends[i := spends[i].(conditions := run)];
            Shown(other, render) == Shown(spends, render) && (AnyFails(other) <==> AnyFails(spends))
  {
    hide Outputs, Inputs, NativeOutputs;
    var foreign := spends[i].(conditions := run);
    var other := spends[i := foreign];
    SplitAround(spends, i, render);
    SplitAround(other, i, render);
    assert other[..i] == spends[..i] && other[i + 1..] == spends[i + 1..];
    ForeignShowsNothing(spends[i], render);
    ForeignShowsNothing(foreign, render);
    assert forall j :: 0 <= j < |spends| && j != i ==> other[j] == spends[j];
    assert foreign.Fails() <==> spends[i].Fails();
    if AnyFails(spends) {
      var j :| 0 <= j < |spends| && spends[j].Fails();
      assert other[j].Fails();
    }
  }

  lemma SplitAround<H>(spends: seq<Spend<H>>, i: nat, render: H -> string)
    requires i < |spends|
    ensures Outputs(spends, render)
         == Outputs(spends[..i], render) + NativeOutputs(spends[i], render) + Outputs(spends[i + 1..], render)
    ensures Inputs(spends) == Inputs(spends[..i]) + spends[i].amount + Inputs(spends[i + 1..])
  {
    hide Outputs, NativeOutputs, Inputs;
    var front, back := spends[..i], spends[i + 1..];
    assert spends == front + [spends[i]] + back;
    ShownInOrder(front + [spends[i]], back, render);
    ShownInOrder(front, [spends[i]], render);
    ShownAlone(spends[i], render);
  }

  /** A spend on its own: a native one shows what its conditions create, a foreign one nothing, and both spend their coin. */
  lemma ShownAlone<H>(spend: Spend<H>, render: H -> string)
    ensures Outputs([spend], render) ==
            if spend.puzzleDecodes && spend.standard && spend.conditions.Some? then Created(spend.conditions.value, render)
            else []
    ensures Outputs([spend], render) == NativeOutputs(spend, render) && Inputs([spend]) == spend.amount
    ensures Outputs<H>([], render) == [] && Inputs<H>([]) == 0
  {
    hide Created;
    assert [spend][..0] == [];
    assert [] + NativeOutputs(spend, render) == NativeOutputs(spend, render);
  }

  /** What the native spends' own conditions create. */
  function CreatedBy<H>(spends: seq<Spend<H>>): nat {
    if spends == [] then 0
    else
      var last := spends[|spends| - 1];
      CreatedBy(spends[..|spends| - 1])
      + if last.puzzleDecodes && last.standard && last.conditions.Some? then Amounts(last.conditions.value) else 0
  }

  lemma {:induction false} OutputsAddUp<H>(spends: seq<Spend<H>>, render: H -> string)
    ensures TotalOf(Outputs(spends, render)) == CreatedBy(spends)
  {
    if spends != [] {
      var n := |spends| - 1;
      OutputsAddUp(spends[..n], render);
      SpendAddsUp(spends[n], render);
      hide NativeOutputs;
      TotalOfAll(Outputs(spends[..n], render), NativeOutputs(spends[n], render));
    }
  }

  lemma SpendAddsUp<H>(spend: Spend<H>, render: H -> string)
    ensures TotalOf(NativeOutputs(spend, render)) ==
            if spend.puzzleDecodes && spend.standard && spend.conditions.Some? then Amounts(spend.conditions.value) else 0
  {
    if spend.conditions.Some? {
      CreatedAddsUp(spend.conditions.value, render);
    }
  }

  /** A bundle is refused for a puzzle that does not decode, or for a standard one that cannot be run; nothing else. */
  lemma RefusedExactly<H>(spends: seq<Spend<H>>)
    ensures AnyFails(spends) <==>
            exists i :: 0 <= i < |spends| &&
              (!spends[i].puzzleDecodes || (spends[i].standard && spends[i].conditions == None))
    ensures !AnyFails(spends) ==>
              forall i :: 0 <= i < |spends| ==> spends[i].puzzleDecodes && (spends[i].Native() <==> spends[i].standard)
  {
    if i :| 0 <= i < |spends| && (!spends[i].puzzleDecodes || (spends[i].standard && spends[i].conditions == None)) {
      assert spends[i].Fails();
    }
  }

  /**
   Conservation: for a native bundle, the total shown is the outputs shown plus the fee shown, exactly when
   its spends do not create more than that total; short of saturation both figures are then the true ones, and
   when they do create more the fee is nothing. A bundle with any foreign spend is flagged and shows no fee,
   however many of its spends are native.
   */
  lemma ConservedExactly<H>(spends: seq<Spend<H>>, render: H -> string)
    ensures var tx, input, created := Shown(spends, render), Inputs(spends), CreatedBy(spends);
            && tx.totalInput == (if input < 0x1_0000_0000_0000_0000 then input else 0xFFFF_FFFF_FFFF_FFFF)
            && tx.outputs == Outputs(spends, render) && TotalOf(tx.outputs) == created
            && (tx.allInputsNativeXch <==> AllNative(spends))
            && (AllNative(spends) ==>
                  && (tx.totalInput == TotalOf(tx.outputs) + tx.fee <==> created <= tx.totalInput)
                  && (created > tx.totalInput ==> tx.fee == 0)
                  && (created <= input < 0x1_0000_0000_0000_0000 ==>
                        tx.totalInput == input && tx.fee == input - created))
            && (!AllNative(spends) ==> tx.fee == 0)
  {
    OutputsAddUp(spends, render);
  }
}
