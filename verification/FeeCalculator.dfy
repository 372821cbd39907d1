/**
 The send fee of src/sdk/paramManagers/fee/FeeCalculator.ts.

 Preparing a proof's public inputs costs compute units per byte. The units are packed greedily
 into transactions, every transaction is paid for, and the amount that is sent, fee included, is
 itself one of the inputs that are packed.
 */
module FeeCalculator {
  import opened Common

  const ADD_COST: nat := 30_000
  const ADD_MIXED_COST: nat := 22_000
  const MAX_CUS: nat := 1_330_000
  const MAX_BATCHING_RATE: nat := 4
  /** ceil((31 * ADD_MIXED_COST + ADD_COST) / MAX_CUS) */
  const MAX_EXTRA_TX: nat := (31 * ADD_MIXED_COST + ADD_COST + MAX_CUS - 1) / MAX_CUS

  // ---------------------------------------------------------------- costs of one input

  function Pow(b: nat, e: nat): nat {
    if e == 0 then 1 else b * Pow(b, e - 1)
  }

  lemma {:induction false} PowPositive(b: nat, e: nat)
    requires b > 0
    ensures Pow(b, e) > 0
  {
    if e > 0 { PowPositive(b, e - 1); }
  }

  function ByteAt(x: nat, b: nat): nat {
    PowPositive(256, b);
    (x / Pow(256, b)) % 256
  }

  function RoundCost(x: nat, b: nat): nat {
    if b == 32 then (if x == 0 then 0 else ADD_COST)
    else if ByteAt(x, b) == 0 then 0 else ADD_MIXED_COST
  }

  /** The costs of the 33 rounds that one public input takes. */
  function Costs(x: nat): seq<nat> {
    seq(33, b requires 0 <= b => RoundCost(x, b))
  }

  /** The number that the lowest `n` bytes stand for. */
  function BytesValue(x: nat, n: nat): nat {
    if n == 0 then 0 else BytesValue(x, n - 1) + ByteAt(x, n - 1) * Pow(256, n - 1)
  }

  lemma {:induction false} PowStep(b: nat, e: nat)
    ensures Pow(b, e + 1) == b * Pow(b, e)
  {
  }

  lemma TimesGrows(a: nat, b: nat, p: nat)
    requires a <= b
    ensures a * p <= b * p
  {
  }

  lemma Distributes(u: nat, m: nat, v: nat, p: nat)
    ensures (u * m + v) * p == u * (m * p) + v * p
  {
  }

  lemma QuotientIs(x: nat, d: nat, q: nat, r: nat)
    requires d > 0 && x == q * d + r && r < d
    ensures x / d == q
  {
    var s := x / d;
    assert x == s * d + x % d;
    Distributes(1, s, 1, d);
    Distributes(1, q, 1, d);
    if s < q { TimesGrows(s + 1, q, d); }
    if s > q { TimesGrows(q + 1, s, d); }
  }

  lemma TwoRemainders(q: nat, r: nat, u: nat, v: nat, m: nat, p: nat)
    requires q == u * m + v && v < m && r < p
    ensures q * p + r == u * (m * p) + (v * p + r) && v * p + r < m * p
  {
    Distributes(u, m, v, p);
    Distributes(1, v, 1, p);
    TimesGrows(v + 1, m, p);
  }

  lemma QuotientOfQuotient(x: nat, p: nat, m: nat)
    requires p > 0 && m > 0
    ensures m * p > 0 && (x / p) / m == x / (m * p)
  {
    var q, r := x / p, x % p;
    var u, v := q / m, q % m;
    TwoRemainders(q, r, u, v, m, p);
    QuotientIs(x, m * p, u, v * p + r);
  }

  lemma NextByte(x: nat, n: nat)
    ensures Pow(256, n) > 0 && Pow(256, n + 1) > 0
    ensures (x / Pow(256, n)) * Pow(256, n)
         == (x / Pow(256, n + 1)) * Pow(256, n + 1) + ByteAt(x, n) * Pow(256, n)
  {
    hide Pow;
    PowPositive(256, n);
    PowStep(256, n);
    var p := Pow(256, n);
    QuotientOfQuotient(x, p, 256);
    var top, low := (x / p) / 256, (x / p) % 256;
    assert x / p == top * 256 + low;
    Distributes(top, 256, low, p);
  }

  /** The lowest `n` bytes of a number are its digits to base 256, with what lies above them left over. */
  lemma {:induction false} BytesAreDigits(x: nat, n: nat)
    ensures Pow(256, n) > 0 && x == BytesValue(x, n) + (x / Pow(256, n)) * Pow(256, n)
    ensures forall b :: 0 <= b < n ==> ByteAt(x, b) < 256
  {
    hide ByteAt;
    if n == 0 {
      assert x / 1 == x;
    } else {
      BytesAreDigits(x, n - 1);
      NextByte(x, n - 1);
      BelowBase(x, n - 1);
    }
  }

  lemma BelowBase(x: nat, b: nat)
    ensures ByteAt(x, b) < 256
  {
  }

  /** The 32 bytes that `serializeUint256LE` gives for a number that fits them are its digits to base 256. */
  lemma SerializedBytes(x: nat)
    requires x < Pow(256, 32)
    ensures x == BytesValue(x, 32) && forall b :: 0 <= b < 32 ==> ByteAt(x, b) < 256
  {
    hide Pow, BytesValue, ByteAt;
    BytesAreDigits(x, 32);
    assert x / Pow(256, 32) == 0;
  }

  /** How many of the lowest `n` digits to base 256 are not zero. */
  function NonzeroDigits(x: nat, n: nat): nat {
    if n == 0 then 0 else (if x % 256 != 0 then 1 else 0) + NonzeroDigits(x / 256, n - 1)
  }

  lemma ByteOfQuotient(x: nat, b: nat)
    ensures ByteAt(x, b + 1) == ByteAt(x / 256, b)
  {
    PowPositive(256, b);
    PowStep(256, b);
    QuotientOfQuotient(x, 256, Pow(256, b));
    assert Pow(256, b) * 256 == 256 * Pow(256, b);
  }

  /** The rounds from `b` on, one for each byte. */
  function ByteCosts(x: nat, b: nat, n: nat): seq<nat>
    decreases n
  {
    if n == 0 then [] else [if ByteAt(x, b) == 0 then 0 else ADD_MIXED_COST] + ByteCosts(x, b + 1, n - 1)
  }

  lemma {:induction false} ByteCostsShift(x: nat, b: nat, n: nat)
    ensures ByteCosts(x, b + 1, n) == ByteCosts(x / 256, b, n)
    decreases n
  {
    if n > 0 {
      ByteOfQuotient(x, b);
      ByteCostsShift(x, b + 1, n - 1);
    }
  }

  lemma {:induction false} ByteCostsSum(x: nat, n: nat)
    ensures Sum(ByteCosts(x, 0, n)) == ADD_MIXED_COST * NonzeroDigits(x, n)
  {
    if n > 0 {
      assert Pow(256, 0) == 1;
      ByteCostsShift(x, 0, n - 1);
      ByteCostsSum(x / 256, n - 1);
      assert ByteCosts(x, 0, n)[1..] == ByteCosts(x, 1, n - 1);
    }
  }

  lemma {:induction false} CostsFrom(x: nat, b: nat)
    requires b <= 32
    ensures Costs(x)[b..32] == ByteCosts(x, b, 32 - b)
    decreases 32 - b
  {
    if b < 32 {
      CostsFrom(x, b + 1);
      assert Costs(x)[b..32] == [Costs(x)[b]] + Costs(x)[b + 1..32];
    }
  }

  /**
   What one public input costs in all: a mixed addition for each byte that is not zero, and an addition unless the input
   is zero.
   */
  lemma InputCost(x: nat)
    ensures Sum(Costs(x)) == ADD_MIXED_COST * NonzeroDigits(x, 32) + if x == 0 then 0 else ADD_COST
    ensures |Costs(x)| == 33 && Costs(x)[32] == (if x == 0 then 0 else ADD_COST)
    ensures forall b :: 0 <= b < 32 ==> Costs(x)[b] == if ByteAt(x, b) == 0 then 0 else ADD_MIXED_COST
  {
    CostsFrom(x, 0);
    ByteCostsSum(x, 32);
    assert Costs(x) == Costs(x)[0..32] + [Costs(x)[32]] && [Costs(x)[32]][1..] == [];
    SumConcat(Costs(x)[0..32], [Costs(x)[32]]);
  }

  lemma {:induction false} NoDigits(n: nat)
    ensures NonzeroDigits(0, n) == 0
  {
    if n > 0 { NoDigits(n - 1); }
  }

  /** Small inputs, as fee version and token id are: one byte that is not zero. */
  lemma SmallInputs(x: nat)
    requires 0 < x < 256
    ensures Sum(Costs(x)) == ADD_MIXED_COST + ADD_COST
  {
    InputCost(x);
    NoDigits(31);
  }

  function AllCosts(inputs: seq<nat>): seq<nat> {
    if inputs == [] then [] else AllCosts(inputs[..|inputs| - 1]) + Costs(inputs[|inputs| - 1])
  }

  /** The rounds of all inputs, one input after the other: round `b` of input `k` is number 33 * k + b. */
  lemma {:induction false} RoundsInOrder(inputs: seq<nat>, k: nat, b: nat)
    requires k < |inputs| && b < 33
    ensures |AllCosts(inputs)| == 33 * |inputs| && AllCosts(inputs)[33 * k + b] == Costs(inputs[k])[b]
  {
    var before := inputs[..|inputs| - 1];
    if before != [] {
      RoundsInOrder(before, if k < |before| then k else 0, if k < |before| then b else 0);
    }
  }

  // ---------------------------------------------------------------- greedy packing

  /** The packing loop's variables: rounds per finished transaction, and the open one. */
  datatype Packing = Packing(instructions: seq<nat>, rounds: nat, computeUnits: nat)

  function AddRound(p: Packing, cus: nat): Packing {
    if p.computeUnits + cus > MAX_CUS
    then Packing(p.instructions + [p.rounds], 1, cus)
    else Packing(p.instructions, p.rounds + 1, p.computeUnits + cus)
  }

  function PackFrom(p: Packing, costs: seq<nat>): Packing
    decreases costs
  {
    if costs == [] then p else PackFrom(AddRound(p, costs[0]), costs[1..])
  }

  function Pack(inputs: seq<nat>): Packing {
    PackFrom(Packing([], 0, 0), AllCosts(inputs))
  }

  function Lengths(p: Packing): seq<nat> {
    if p.rounds > 0 then p.instructions + [p.rounds] else p.instructions
  }

  function TxCount(inputs: seq<nat>): nat { |Lengths(Pack(inputs))| }

  function UsedCUs(inputs: seq<nat>): nat { Pack(inputs).computeUnits }

  /** `lens` cuts `costs`, in order, into transactions of at most MAX_CUS units. */
  ghost predicate Fits(costs: seq<nat>, lens: seq<nat>) {
    if lens == [] then costs == []
    else
      && lens[0] <= |costs|
      && Sum(costs[..lens[0]]) <= MAX_CUS
      && Fits(costs[lens[0]..], lens[1..])
  }

  lemma {:induction false} PackConcat(p: Packing, a: seq<nat>, b: seq<nat>)
    ensures PackFrom(p, a + b) == PackFrom(PackFrom(p, a), b)
    decreases a
  {
    if a == [] {
      assert a + b == b;
    } else {
      PackConcat(AddRound(p, a[0]), a[1..], b);
      assert (a + b)[1..] == a[1..] + b;
    }
  }

  lemma {:induction false} FitsConcat(a: seq<nat>, la: seq<nat>, b: seq<nat>)
    requires Fits(a, la) && Sum(b) <= MAX_CUS
    ensures Fits(a + b, la + [|b|])
  {
    if la == [] {
      assert a + b == b && b[..|b|] == b && b[|b|..] == [];
      assert Fits([], [|b|][1..]);
    } else {
      FitsConcat(a[la[0]..], la[1..], b);
      assert (a + b)[..la[0]] == a[..la[0]];
      assert (a + b)[la[0]..] == a[la[0]..] + b;
      assert (la + [|b|])[1..] == la[1..] + [|b|];
    }
  }

  /** What the packing loop has done with the costs it has seen. */
  ghost predicate Packed(done: seq<nat>, p: Packing) {
    && p.rounds <= |done|
    && (p.rounds == 0 ==> done == [] && p.instructions == [])
    && Fits(done[..|done| - p.rounds], p.instructions)
    && p.computeUnits == Sum(done[|done| - p.rounds..]) <= MAX_CUS
  }

  lemma PackedStep(done: seq<nat>, p: Packing, cus: nat)
    requires Packed(done, p) && cus <= MAX_CUS
    ensures Packed(done + [cus], AddRound(p, cus))
  {
    var cut := |done| - p.rounds;
    var closed, open := done[..cut], done[cut..];
    var next := done + [cus];
    SumConcat(open, [cus]);
    assert [cus][1..] == [];
    if p.computeUnits + cus > MAX_CUS {
      FitsConcat(closed, p.instructions, open);
      assert closed + open == done == next[..|next| - 1];
      assert next[|next| - 1..] == [cus];
    } else {
      assert next[..cut] == closed && next[cut..] == open + [cus];
    }
  }

  lemma {:induction false} PackFromPacked(done: seq<nat>, p: Packing, costs: seq<nat>)
    requires Packed(done, p) && forall k :: 0 <= k < |costs| ==> costs[k] <= MAX_CUS
    ensures Packed(done + costs, PackFrom(p, costs))
    decreases costs
  {
    if costs == [] {
      assert done + costs == done;
    } else {
      PackedStep(done, p, costs[0]);
      PackFromPacked(done + [costs[0]], AddRound(p, costs[0]), costs[1..]);
      assert done + [costs[0]] + costs[1..] == done + costs;
    }
  }

  lemma {:induction false} AllCostsSmall(inputs: seq<nat>)
    ensures forall k :: 0 <= k < |AllCosts(inputs)| ==> AllCosts(inputs)[k] <= MAX_CUS
    ensures |AllCosts(inputs)| == 33 * |inputs|
  {
    if inputs != [] {
      AllCostsSmall(inputs[..|inputs| - 1]);
    }
  }

  /** Greedy packing loses no round and overfills no transaction. */
  lemma AllPacked(inputs: seq<nat>)
    ensures Packed(AllCosts(inputs), Pack(inputs))
  {
    var costs := AllCosts(inputs);
    AllCostsSmall(inputs);
    PackFromPacked([], Packing([], 0, 0), costs);
    assert [] + costs == costs;
  }

  lemma PackingFits(inputs: seq<nat>)
    ensures Fits(AllCosts(inputs), Lengths(Pack(inputs)))
    ensures UsedCUs(inputs) <= MAX_CUS
    ensures Pack(inputs).rounds > 0 <==> inputs != []
  {
    AllCostsSmall(inputs);
    AllPacked(inputs);
    PackedFits(AllCosts(inputs), Pack(inputs));
  }

  /** The rounds of the last transaction. */
  ghost function LastRounds(costs: seq<nat>, lens: seq<nat>): seq<nat> {
    if lens == [] || lens[|lens| - 1] > |costs| then [] else costs[|costs| - lens[|lens| - 1]..]
  }

  /** What the packing leaves used are the units of the last transaction's rounds. */
  lemma UsedByLastRounds(inputs: seq<nat>)
    ensures UsedCUs(inputs) == Sum(LastRounds(AllCosts(inputs), Lengths(Pack(inputs))))
  {
    hide Fits, PackFrom, AllCosts;
    var costs, p := AllCosts(inputs), Pack(inputs);
    AllPacked(inputs);
    if p.rounds > 0 {
      assert Lengths(p)[|Lengths(p)| - 1] == p.rounds;
    } else {
      assert costs == [];
    }
  }

  lemma PackedFits(costs: seq<nat>, p: Packing)
    requires Packed(costs, p)
    ensures Fits(costs, Lengths(p))
  {
    if p.rounds > 0 {
      var cut := |costs| - p.rounds;
      FitsConcat(costs[..cut], p.instructions, costs[cut..]);
      assert costs[..cut] + costs[cut..] == costs;
    } else {
      assert costs[..|costs|] == costs;
    }
  }

  /**
   Greedy stays ahead: a rival packer is `cur` rounds before the end of its transaction number `a`,
   has used `ua` units of it, and still has the transactions `lens` to fill.
   */
  lemma {:induction false} GreedyStaysAhead(p: Packing, costs: seq<nat>, cur: nat, lens: seq<nat>, a: nat, ua: nat)
    requires forall k :: 0 <= k < |costs| ==> costs[k] <= MAX_CUS
    requires cur <= |costs| && ua + Sum(costs[..cur]) <= MAX_CUS && Fits(costs[cur..], lens)
    requires |p.instructions| < a || (|p.instructions| == a && p.computeUnits <= ua)
    ensures |PackFrom(p, costs).instructions| <= a + |lens|
    decreases |costs| + |lens|
  {
    if costs == [] {
    } else if cur > 0 {
      assert costs[..cur] == [costs[0]] + costs[1..][..cur - 1];
      assert costs[1..][cur - 1..] == costs[cur..];
      GreedyStaysAhead(AddRound(p, costs[0]), costs[1..], cur - 1, lens, a, ua + costs[0]);
    } else {
      assert costs[0..] == costs && costs[..0] == [];
      GreedyStaysAhead(p, costs, lens[0], lens[1..], a + 1, 0);
    }
  }

  /** No other in-order split of the same costs uses fewer transactions. */
  lemma PackingIsOptimal(inputs: seq<nat>, lens: seq<nat>)
    requires Fits(AllCosts(inputs), lens)
    ensures TxCount(inputs) <= |lens|
  {
    var costs := AllCosts(inputs);
    AllCostsSmall(inputs);
    PackingFits(inputs);
    if inputs != [] {
      assert |costs| > 0 && lens != [];
      GreedyStaysAhead(Packing([], 0, 0), costs, lens[0], lens[1..], 0, 0);
    }
  }

  /** Inputs whose rounds fit one transaction take one, as two small numbers do, at 52 000 units each. */
  lemma OneTransaction(inputs: seq<nat>)
    requires inputs != [] && Sum(AllCosts(inputs)) <= MAX_CUS
    ensures TxCount(inputs) == 1
  {
    var costs := AllCosts(inputs);
    assert costs[..|costs|] == costs && costs[|costs|..] == [];
    assert Fits([], [|costs|][1..]);
    PackingIsOptimal(inputs, [|costs|]);
    PackingFits(inputs);
  }

  lemma TwoSmallInputs(x: nat, y: nat)
    requires 0 < x < 256 && 0 < y < 256
    ensures Sum(AllCosts([x, y])) == 104_000 && TxCount([x, y]) == 1
  {
    hide Costs;
    SmallInputs(x);
    SmallInputs(y);
    assert [x, y][..1] == [x] && [x][..0] == [];
    assert AllCosts([x]) == Costs(x);
    SumConcat(Costs(x), Costs(y));
    OneTransaction([x, y]);
  }

  /** `getInputPreparationTxCountNoAmount`: the packing loop. */
  method GetInputPreparationTxCountNoAmount(publicInputs: seq<nat>) returns (txCount: nat, usedCUsLastTx: nat)
    ensures txCount == TxCount(publicInputs) && usedCUsLastTx == UsedCUs(publicInputs)
  {
    var instructions: seq<nat> := [];
    var rounds: nat, computeUnits: nat := 0, 0;
    ghost var start := Packing([], 0, 0);
    for n := 0 to |publicInputs|
      invariant Packing(instructions, rounds, computeUnits) == PackFrom(start, AllCosts(publicInputs[..n]))
    {
      var x := publicInputs[n];
      ghost var before := AllCosts(publicInputs[..n]);
      assert before + Costs(x)[..0] == before;
      for b := 0 to 33
        invariant Packing(instructions, rounds, computeUnits) == PackFrom(start, before + Costs(x)[..b])
      {
        var cus := if b == 32 then (if x == 0 then 0 else ADD_COST)
                   else if ByteAt(x, b) == 0 then 0 else ADD_MIXED_COST;
        PackConcat(start, before + Costs(x)[..b], [cus]);
        assert before + Costs(x)[..b] + [cus] == before + Costs(x)[..b + 1];
        assert [cus][1..] == [];
        if computeUnits + cus > MAX_CUS {
          instructions := instructions + [rounds];
          rounds := 1;
          computeUnits := cus;
        } else {
          rounds := rounds + 1;
          computeUnits := computeUnits + cus;
        }
      }
      assert Costs(x)[..33] == Costs(x);
      assert publicInputs[..n + 1][..n] == publicInputs[..n];
    }
    assert publicInputs[..|publicInputs|] == publicInputs;
    if rounds > 0 {
      instructions := instructions + [rounds];
    }
    return |instructions|, computeUnits;
  }

  // ---------------------------------------------------------------- one extra input

  /** `getTxCountForExtraInput` */
  function TxCountForExtraInput(input: nat, startingCUs: nat): int {
    TxCount([input]) - 1 + if UsedCUs([input]) + startingCUs > MAX_CUS then 1 else 0
  }

  lemma {:induction false} SumBound(s: seq<nat>, m: nat)
    requires forall k :: 0 <= k < |s| ==> s[k] <= m
    ensures Sum(s) <= |s| * m
  {
    if s != [] { SumBound(s[1..], m); }
  }

  lemma CostsBound(x: nat)
    ensures Sum(Costs(x)) <= 32 * ADD_MIXED_COST + ADD_COST
  {
    var c := Costs(x);
    SumBound(c[..32], ADD_MIXED_COST);
    assert c == c[..32] + [c[32]];
    SumConcat(c[..32], [c[32]]);
    assert [c[32]][1..] == [];
  }

  /** Costs that fit one transaction open at most one new one. */
  lemma {:induction false} PackShort(p: Packing, costs: seq<nat>)
    requires Sum(costs) <= MAX_CUS && p.computeUnits <= MAX_CUS
    ensures var q := PackFrom(p, costs);
            if p.computeUnits + Sum(costs) <= MAX_CUS
            then q == Packing(p.instructions, p.rounds + |costs|, p.computeUnits + Sum(costs))
            else |q.instructions| == |p.instructions| + 1 && q.rounds > 0
    decreases costs
  {
    if costs != [] {
      PackShort(AddRound(p, costs[0]), costs[1..]);
    }
  }

  lemma PackAppend(inputs: seq<nat>, x: nat)
    ensures Pack(inputs + [x]) == PackFrom(Pack(inputs), Costs(x))
  {
    assert (inputs + [x])[..|inputs|] == inputs;
    PackConcat(Packing([], 0, 0), AllCosts(inputs), Costs(x));
  }

  lemma SingleInput(x: nat)
    ensures TxCount([x]) == 1 && UsedCUs([x]) == Sum(Costs(x))
  {
    CostsBound(x);
    PackAppend([], x);
    assert [] + [x] == [x];
    PackShort(Packing([], 0, 0), Costs(x));
  }

  /**
   Counting the extra transactions of one more input from the units the last transaction already
   used gives what repacking everything would, exactly when there was something to pack before.
   */
  lemma ExtraInputEqualsRepacking(inputs: seq<nat>, x: nat)
    ensures TxCount(inputs + [x]) == TxCount(inputs) + TxCountForExtraInput(x, UsedCUs(inputs))
            <==> inputs != []
    ensures 0 <= TxCountForExtraInput(x, UsedCUs(inputs)) <= 1
  {
    CostsBound(x);
    SingleInput(x);
    PackingFits(inputs);
    PackAppend(inputs, x);
    PackShort(Pack(inputs), Costs(x));
  }

  // ---------------------------------------------------------------- the fee

  /** The fields of the on-chain program fee that the send fee reads (all unsigned). */
  datatype ProgramFee = ProgramFee(
    lamportsPerTx: nat,
    wardenHashTxReward: nat,
    wardenProofReward: nat,
    proofBaseTxCount: nat,
    proofSubvention: nat,
    proofNetworkFee: nat)

  function HashTxCompensation(f: ProgramFee): nat { f.lamportsPerTx + f.wardenHashTxReward }

  function ProofTxCompensation(f: ProgramFee): nat { f.lamportsPerTx + f.wardenProofReward }

  function ProofVerificationNetworkFee(f: ProgramFee, amount: nat): nat { f.proofNetworkFee * amount / 10_000 }

  function DivCeil(a: nat, b: nat): nat
    requires b > 0
  {
    var q := a / b;
    if q * b < a then q + 1 else q
  }

  /** `getCommitmentHashTxCount`: transactions of a whole batch, by batching rate. */
  function CommitmentHashTxCount(rate: nat): nat
    requires rate <= MAX_BATCHING_RATE
  {
    [24, 24, 25, 29, 37][rate]
  }

  /** `commitmentHashFee`, with the check of `getCommitmentHashTxCount`. */
  function CommitmentHashFee(f: ProgramFee, rate: nat): Result<nat> {
    if rate > MAX_BATCHING_RATE then Err(TooLarge)
    else
      PowPositive(2, rate);
      Ok(DivCeil(CommitmentHashTxCount(rate) * HashTxCompensation(f), Pow(2, rate)))
  }

  lemma HashFeeOk(f: ProgramFee, rate: nat)
    ensures CommitmentHashFee(f, rate).Ok? <==> rate <= MAX_BATCHING_RATE
  {
  }

  /** Together the 2^rate commitments of a batch pay for the batch, and one lamport less each would not do. */
  lemma CommitmentHashFeePaysTheBatch(f: ProgramFee, rate: nat)
    requires rate <= MAX_BATCHING_RATE
    ensures var batch := [24, 24, 25, 29, 37][rate] * (f.lamportsPerTx + f.wardenHashTxReward);
            var size := [1, 2, 4, 8, 16][rate];
            batch <= CommitmentHashFee(f, rate).value * size < batch + size
  {
    PowPositive(2, rate);
    BatchSizes();
    DivCeilBounds(CommitmentHashTxCount(rate) * HashTxCompensation(f), Pow(2, rate));
  }

  lemma BatchSizes()
    ensures Pow(2, 0) == 1 && Pow(2, 1) == 2 && Pow(2, 2) == 4 && Pow(2, 3) == 8 && Pow(2, 4) == 16
  {
  }

  /** The share of a commitment, by rate, when a hash transaction costs 16 lamports. */
  lemma HashFees(f: ProgramFee)
    requires f.lamportsPerTx + f.wardenHashTxReward == 16
    ensures CommitmentHashFee(f, 0) == Ok(384) && CommitmentHashFee(f, 1) == Ok(192)
    ensures CommitmentHashFee(f, 2) == Ok(100) && CommitmentHashFee(f, 3) == Ok(58)
    ensures CommitmentHashFee(f, 4) == Ok(37) && CommitmentHashFee(f, 5) == Err(TooLarge)
  {
    BatchSizes();
  }

  /** `proofVerificationNetworkFee` in basis points, rounded down. */
  lemma NetworkFeeRoundsDown(f: ProgramFee, amount: nat)
    ensures var fee := ProofVerificationNetworkFee(f, amount);
            fee * 10_000 <= f.proofNetworkFee * amount < (fee + 1) * 10_000
  {
    var basis := f.proofNetworkFee * amount;
    assert basis == basis / 10_000 * 10_000 + basis % 10_000;
  }

  lemma DivCeilBounds(a: nat, b: nat)
    requires b > 0
    ensures a <= DivCeil(a, b) * b < a + b
  {
    var q := a / b;
    assert a == q * b + a % b;
    assert (q + 1) * b == q * b + b;
  }

  /** `getSendFeeFixedCosts` */
  function SendFeeFixedCosts(f: ProgramFee, hashFee: nat): nat {
    f.wardenProofReward + hashFee + f.proofBaseTxCount * ProofTxCompensation(f)
  }

  /**
   What a send of a given amount is charged: a part that does not depend on the transactions, and a price for each.
   */
  datatype Charges = Charges(fixed: nat, perTx: nat, subvention: nat)

  function ChargesFor(f: ProgramFee, hashFee: nat, amount: nat): Charges {
    var fixed := SendFeeFixedCosts(f, hashFee) + ProofVerificationNetworkFee(f, amount);
    Charges(fixed, ProofTxCompensation(f), f.proofSubvention)
  }

  /** The cost of a send whose inputs, amount included, take `txs` preparation transactions. */
  function Cost(c: Charges, txs: nat): nat { WithTxs(c.fixed, c.perTx, txs) }

  function WithTxs(base: nat, perTx: nat, txs: nat): nat { base + txs * perTx }

  /** How many extra transactions a total needs, as a function of that total. */
  function Needed(used: nat): nat -> int { (total: nat) => TxCountForExtraInput(total, used) }

  /** The smallest i in [i, limit) whose own total needs at most i extra transactions. */
  function FirstWorkable(baseAmount: nat, perTx: nat, needed: nat -> int, i: nat, limit: nat): Option<nat>
    decreases limit - i
  {
    if i >= limit then None
    else if needed(WithTxs(baseAmount, perTx, i)) <= i then Some(i)
    else FirstWorkable(baseAmount, perTx, needed, i + 1, limit)
  }

  /** The transactions paid for with `j` extra ones are not enough for the amount with them. */
  ghost predicate Unworkable(baseAmount: nat, perTx: nat, needed: nat -> int, j: nat) {
    needed(WithTxs(baseAmount, perTx, j)) > j
  }

  /** Whatever is needed for which total: the search stops at the first number that works, and only there. */
  lemma {:induction false} LeastWorkable(baseAmount: nat, perTx: nat, needed: nat -> int, i: nat, limit: nat)
    ensures var r := FirstWorkable(baseAmount, perTx, needed, i, limit);
            && (r.Some? ==> i <= r.value < limit && !Unworkable(baseAmount, perTx, needed, r.value))
            && forall j: nat :: i <= j < (if r.Some? then r.value else limit)
                 ==> Unworkable(baseAmount, perTx, needed, j)
    decreases limit - i
  {
    hide WithTxs;
    if i < limit { LeastWorkable(baseAmount, perTx, needed, i + 1, limit); }
  }

  /** The running amount after the subvention was taken off, as the code leaves it. */
  function BaseAmount(total: nat, subvention: nat): nat {
    if total > subvention then total - subvention else 0
  }

  /** The subvention that is then still to be taken off, as the code leaves it. */
  function RemainingSubvention(total: nat, subvention: nat): nat {
    if total > subvention then 0 else subvention
  }

  function ExtraTxs(total: nat, c: Charges, needed: nat -> int): Option<nat> {
    FirstWorkable(BaseAmount(total, c.subvention), c.perTx, needed, 0, MAX_EXTRA_TX + 1)
  }

  /** The search from a given total on. */
  function FeeFromTotal(total: nat, c: Charges, needed: nat -> int, amount: nat): Result<int> {
    match ExtraTxs(total, c, needed)
    case None => Err(TooLarge)
    case Some(i) =>
      Ok(WithTxs(BaseAmount(total, c.subvention), c.perTx, i) - amount - RemainingSubvention(total, c.subvention))
  }

  /** The total the fee is computed from: what is sent, and the cost without any extra transaction. */
  function Total(c: Charges, inputs: seq<nat>, amount: nat): nat { amount + Cost(c, TxCount(inputs)) }

  /** That total in the fields of the program fee. */
  lemma TotalInFields(f: ProgramFee, hashFee: nat, inputs: seq<nat>, amount: nat)
    ensures var perTx := f.lamportsPerTx + f.wardenProofReward;
            Total(ChargesFor(f, hashFee, amount), inputs, amount)
            == amount + f.wardenProofReward + hashFee + ProofVerificationNetworkFee(f, amount)
               + (f.proofBaseTxCount + TxCount(inputs)) * perTx
  {
    hide TxCount, ProofVerificationNetworkFee;
    Distributes(f.proofBaseTxCount, 1, TxCount(inputs), f.lamportsPerTx + f.wardenProofReward);
  }

  function FeeFor(c: Charges, inputs: seq<nat>, amount: nat): Result<int> {
    FeeFromTotal(Total(c, inputs, amount), c, Needed(UsedCUs(inputs)), amount)
  }

  /** `getSendTotalFeeInner` as a function of its inputs. */
  function SendTotalFee(f: ProgramFee, rate: nat, inputs: seq<nat>, amount: nat): Result<int> {
    match CommitmentHashFee(f, rate)
    case Err(e) => Err(e)
    case Ok(hashFee) => FeeFor(ChargesFor(f, hashFee, amount), inputs, amount)
  }

  /** One more input never needs more than one more transaction, and a zero input needs none. */
  ghost predicate NeedsAtMostOne(needed: nat -> int) {
    needed(0) == 0 && forall x: nat :: 0 <= needed(x) <= 1
  }

  lemma NeededAtMostOne(used: nat)
    requires used <= MAX_CUS
    ensures NeedsAtMostOne(Needed(used))
  {
    ZeroCosts();
    SingleInput(0);
    forall x: nat
      ensures 0 <= Needed(used)(x) <= 1
    {
      SingleInput(x);
    }
  }

  /** The loop never reaches its throw; what it returns, in terms of the branch that was taken. */
  lemma FeeShape(total: nat, c: Charges, needed: nat -> int, amount: nat) returns (i: nat)
    requires NeedsAtMostOne(needed)
    ensures ExtraTxs(total, c, needed) == Some(i) && i <= 1
    ensures FeeFromTotal(total, c, needed, amount)
            == Ok((if total > c.subvention then total - c.subvention else -(c.subvention as int))
                  + (if i == 1 then c.perTx else 0) - amount)
    ensures total <= c.subvention ==> i == 0
    ensures total > c.subvention ==> needed(WithTxs(total - c.subvention, c.perTx, i)) <= i
    ensures total > c.subvention && i == 1 ==> needed(total - c.subvention) > 0
  {
    var base := BaseAmount(total, c.subvention);
    assert MAX_EXTRA_TX == 1;
    WithOneMore(base, c.perTx, 0);
    i := if needed(base) <= 0 then 0 else 1;
    assert FirstWorkable(base, c.perTx, needed, 1, 2) == if needed(base + c.perTx) <= 1 then Some(1) else None;
  }

  lemma WithOneMore(base: nat, perTx: nat, txs: nat)
    ensures WithTxs(base, perTx, txs + 1) == WithTxs(base, perTx, txs) + perTx
    ensures WithTxs(base, perTx, 0) == base
  {
  }

  /** The part of `getSendTotalFeeInner` after the total is known: the search for a workable total amount. */
  method SearchFee(total: nat, c: Charges, usedCUsLastTx: nat, amountToSend: nat) returns (r: Result<int>)
    requires usedCUsLastTx <= MAX_CUS
    ensures r == FeeFromTotal(total, c, Needed(usedCUsLastTx), amountToSend) && r.Ok?
  {
    var baseAmount, remainingSubvention := total, c.subvention;
    if baseAmount > remainingSubvention {
      baseAmount := baseAmount - remainingSubvention;
      remainingSubvention := 0;
    } else {
      baseAmount := 0;
      remainingSubvention := remainingSubvention - baseAmount;
    }
    NeededAtMostOne(usedCUsLastTx);
    ghost var least := FeeShape(total, c, Needed(usedCUsLastTx), amountToSend);
    for i := 0 to MAX_EXTRA_TX + 1
      invariant FirstWorkable(baseAmount, c.perTx, Needed(usedCUsLastTx), i, MAX_EXTRA_TX + 1) == Some(least)
    {
      var totalAmount := WithTxs(baseAmount, c.perTx, i);
      var neededTxs := TxCountForExtraInput(totalAmount, usedCUsLastTx);
      assert neededTxs == Needed(usedCUsLastTx)(totalAmount);
      if neededTxs <= i {
        assert i == least;
        return Ok(totalAmount - amountToSend - remainingSubvention);
      }
    }
    assert false;
    r := Err(TooLarge);
  }

  /** `getSendTotalFeeInner`: an amount that pays for its own transactions. */
  method GetSendTotalFeeInner(f: ProgramFee, rate: nat, pubInputsNoAmount: seq<nat>, amountToSend: nat)
    returns (r: Result<int>)
    ensures r == SendTotalFee(f, rate, pubInputsNoAmount, amountToSend)
    ensures r.Ok? <==> rate <= MAX_BATCHING_RATE
  {
    var txCount, usedCUsLastTx := GetInputPreparationTxCountNoAmount(pubInputsNoAmount);
    PackingFits(pubInputsNoAmount);
    var hash := CommitmentHashFee(f, rate);
    if hash.Err? {
      return Err(hash.error);
    }
    var charges := ChargesFor(f, hash.value, amountToSend);
    r := SearchFee(amountToSend + Cost(charges, txCount), charges, usedCUsLastTx, amountToSend);
  }

  /** Fee and subvention together pay the fixed costs and TxCount(inputs) + i transactions. */
  ghost predicate Pays(c: Charges, inputs: seq<nat>, fee: int, i: nat) {
    fee + c.subvention == Cost(c, TxCount(inputs) + i)
  }

  /** The transactions of `inputs` and `i` more cover the inputs with `total` appended, at most one to spare. */
  ghost predicate Covers(inputs: seq<nat>, total: nat, i: nat) {
    TxCount(inputs + [total]) <= TxCount(inputs) + i <= TxCount(inputs + [total]) + 1
  }

  /** With only `k` extra transactions paid for, the amount including the fee would still need more. */
  ghost predicate TooFew(c: Charges, inputs: seq<nat>, amount: nat, k: nat) {
    var total := amount + Cost(c, TxCount(inputs) + k) - c.subvention;
    total >= 0 && TxCount(inputs + [total]) > TxCount(inputs) + k
  }

  lemma WorkableCovers(inputs: seq<nat>, x: nat, i: nat)
    requires inputs != [] && Needed(UsedCUs(inputs))(x) <= i <= 1
    ensures Covers(inputs, x, i)
  {
    ExtraInputEqualsRepacking(inputs, x);
  }

  lemma UnworkableIsTooFew(c: Charges, inputs: seq<nat>, amount: nat)
    requires inputs != [] && Total(c, inputs, amount) > c.subvention
    requires Needed(UsedCUs(inputs))(Total(c, inputs, amount) - c.subvention) > 0
    ensures TooFew(c, inputs, amount, 0)
  {
    ExtraInputEqualsRepacking(inputs, Total(c, inputs, amount) - c.subvention);
  }

  lemma PaysFor(c: Charges, inputs: seq<nat>, amount: nat, fee: int, i: nat)
    requires i <= 1
    requires amount + fee == Total(c, inputs, amount) - c.subvention + if i == 1 then c.perTx else 0
    ensures Pays(c, inputs, fee, i)
  {
    WithOneMore(c.fixed, c.perTx, TxCount(inputs));
  }

  /**
   When the total is above the subvention, the fee is self-consistent: it and the subvention pay for
   exactly TxCount(inputs) + i transactions, these cover the inputs with total = amount + fee appended, and
   i is the least number that works.
   */
  lemma FeePaysForItsOwnTransactions(c: Charges, inputs: seq<nat>, amount: nat) returns (i: nat, total: nat)
    requires inputs != [] && Total(c, inputs, amount) > c.subvention
    ensures FeeFor(c, inputs, amount) == Ok(total - amount)
    ensures Pays(c, inputs, total - amount, i)
    ensures Covers(inputs, total, i)
    ensures i <= 1 && (i == 1 ==> TooFew(c, inputs, amount, 0))
  {
    hide WithTxs, TooFew, Covers, Pays, FeeFromTotal, ExtraTxs, TxCount, UsedCUs, TxCountForExtraInput, Fits, Pack;
    PackingFits(inputs);
    NeededAtMostOne(UsedCUs(inputs));
    var t := Total(c, inputs, amount);
    i := FeeShape(t, c, Needed(UsedCUs(inputs)), amount);
    WithOneMore(t - c.subvention, c.perTx, 0);
    total := if i == 1 then t - c.subvention + c.perTx else t - c.subvention;
    WorkableCovers(inputs, total, i);
    PaysFor(c, inputs, amount, total - amount, i);
    if i == 1 {
      UnworkableIsTooFew(c, inputs, amount);
    }
  }

  /** The fee quoted to the user, in lamports. */
  datatype Fee = Fee(txFee: int, privacyFee: nat, extraFee: nat, tokenAccRent: nat)

  /** `getSendFee` */
  function SendFee(f: ProgramFee, rate: nat, inputs: seq<nat>, amount: nat, optionalFee: nat, rent: nat,
        recipientExists: bool): Result<Fee> {
    match SendTotalFee(f, rate, inputs, amount)
    case Err(e) => Err(e)
    case Ok(total) =>
      var privacyFee := ProofVerificationNetworkFee(f, amount);
      Ok(Fee(total - privacyFee, privacyFee, optionalFee, if recipientExists then 0 else rent))
  }

  /** The transaction fee and the subvention pay for the verification and for `txs` preparation transactions. */
  ghost predicate PaysParts(f: ProgramFee, hashFee: nat, txFee: int, txs: nat) {
    txFee + f.proofSubvention
    == f.wardenProofReward + hashFee + (f.proofBaseTxCount + txs) * (f.lamportsPerTx + f.wardenProofReward)
  }

  /**
   Above the subvention the quoted parts are what they are called: the transaction fee and the subvention pay
   for the verification and the transactions alone, and enough of these for the amount with both fees on top; the
   privacy fee is a share of the amount, and the rent is for a recipient that does not exist yet.
   */
  lemma SendFeeParts(f: ProgramFee, rate: nat, inputs: seq<nat>, amount: nat, optionalFee: nat, rent: nat,
        recipientExists: bool)
    returns (i: nat)
    requires rate <= MAX_BATCHING_RATE && inputs != []
    requires Total(ChargesFor(f, CommitmentHashFee(f, rate).value, amount), inputs, amount) > f.proofSubvention
    ensures var fee := SendFee(f, rate, inputs, amount, optionalFee, rent, recipientExists);
            && fee.Ok? && i <= 1
            && PaysParts(f, CommitmentHashFee(f, rate).value, fee.value.txFee, TxCount(inputs) + i)
            && SendTotalFee(f, rate, inputs, amount) == Ok(fee.value.txFee + fee.value.privacyFee)
            && amount + fee.value.txFee + fee.value.privacyFee >= 0
            && Covers(inputs, amount + fee.value.txFee + fee.value.privacyFee, i)
            && fee.value.privacyFee * 10_000 <= f.proofNetworkFee * amount < (fee.value.privacyFee + 1) * 10_000
            && fee.value.extraFee == optionalFee
            && fee.value.tokenAccRent == (if recipientExists then 0 else rent)
  {
    hide WithTxs, TxCount, CommitmentHashFee, ProofVerificationNetworkFee, SendFeeFixedCosts, ProofTxCompensation,
      FeeFor, Total, Covers, PaysParts;
    HashFeeOk(f, rate);
    NetworkFeeRoundsDown(f, amount);
    var c := ChargesFor(f, CommitmentHashFee(f, rate).value, amount);
    var total: nat;
    i, total := FeePaysForItsOwnTransactions(c, inputs, amount);
    PartsPaid(f, CommitmentHashFee(f, rate).value, inputs, amount, total - amount, i);
  }

  lemma PartsPaid(f: ProgramFee, hashFee: nat, inputs: seq<nat>, amount: nat, fee: int, i: nat)
    requires Pays(ChargesFor(f, hashFee, amount), inputs, fee, i)
    ensures PaysParts(f, hashFee, fee - ProofVerificationNetworkFee(f, amount), TxCount(inputs) + i)
  {
    hide TxCount, ProofVerificationNetworkFee;
    MoreFixed(SendFeeFixedCosts(f, hashFee), ProofVerificationNetworkFee(f, amount), ProofTxCompensation(f),
        TxCount(inputs) + i);
    Distributes(f.proofBaseTxCount, 1, TxCount(inputs) + i, f.lamportsPerTx + f.wardenProofReward);
  }

  lemma MoreFixed(base: nat, more: nat, perTx: nat, txs: nat)
    ensures WithTxs(base + more, perTx, txs) == WithTxs(base, perTx, txs) + more
  {
  }

  /**
   "Fee and subvention pay the costs" holds exactly when the total is above the subvention (or there
   is nothing at all to pay). In the other branch the running amount is cleared before it is taken
   off the subvention, and the fee is minus the amount minus the whole subvention.
   */
  lemma FeeIdentityExactly(c: Charges, inputs: seq<nat>, amount: nat) returns (i: nat)
    ensures var fee := FeeFor(c, inputs, amount);
            var total := Total(c, inputs, amount);
            && fee.Ok?
            && ExtraTxs(total, c, Needed(UsedCUs(inputs))) == Some(i)
            && (total <= c.subvention ==> i == 0 && fee.value == -(amount as int) - c.subvention)
            && (Pays(c, inputs, fee.value, i) <==> total > c.subvention || total == 0)
  {
    PackingFits(inputs);
    NeededAtMostOne(UsedCUs(inputs));
    i := FeeShape(Total(c, inputs, amount), c, Needed(UsedCUs(inputs)), amount);
    WithOneMore(c.fixed, c.perTx, TxCount(inputs));
  }

  lemma ZeroCosts()
    ensures Sum(Costs(0)) == 0
  {
    ZeroBytes(32);
    forall k | 0 <= k < 33
      ensures Costs(0)[k] == 0
    {
    }
    SumBound(Costs(0), 0);
  }

  lemma ZeroBytes(n: nat)
    ensures forall b: nat :: b < n ==> ByteAt(0, b) == 0
  {
    forall b: nat | b < n
      ensures ByteAt(0, b) == 0
    {
      PowPositive(256, b);
      assert 0 / Pow(256, b) == 0;
    }
  }

  /** In that branch the fee of a send is negative, whatever the program fee, the inputs and the amount are. */
  lemma SubventionBranchFails(f: ProgramFee, rate: nat, inputs: seq<nat>, amount: nat)
    requires rate <= MAX_BATCHING_RATE
    requires Total(ChargesFor(f, CommitmentHashFee(f, rate).value, amount), inputs, amount) <= f.proofSubvention
    ensures SendTotalFee(f, rate, inputs, amount) == Ok(-(amount as int) - f.proofSubvention)
  {
    hide Total, WithTxs, TxCount;
    HashFeeOk(f, rate);
    var i := FeeIdentityExactly(ChargesFor(f, CommitmentHashFee(f, rate).value, amount), inputs, amount);
  }

  /**
   A program fee and a send in that branch: at one lamport per transaction and a subvention of 1000, sending 1 from
   one commitment costs 25 lamports, and the fee comes out as -1001.
   */
  lemma SubventionExample()
    ensures var f := ProgramFee(1, 0, 0, 0, 1000, 0);
            && SendTotalFee(f, 0, [1], 1) == Ok(-1001)
            && Cost(ChargesFor(f, 24, 1), TxCount([1])) == 25 && CommitmentHashFee(f, 0) == Ok(24)
  {
    hide TxCount, SendTotalFee;
    SingleInput(1);
    ExampleCharges();
    SubventionBranchFails(ProgramFee(1, 0, 0, 0, 1000, 0), 0, [1], 1);
  }

  lemma ExampleCharges()
    ensures var f := ProgramFee(1, 0, 0, 0, 1000, 0);
            CommitmentHashFee(f, 0) == Ok(24) && ChargesFor(f, 24, 1) == Charges(24, 1, 1000)
  {
    assert Pow(2, 0) == 1;
  }
}
