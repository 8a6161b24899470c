/** The threat score: ONNXEngine in src/inference/onnx_engine.cpp and _onnx_score in waf/waf_proxy.py. */
module Scoring {
  import opened Common
  import opened Encoding

  /** What a call on the network leaves: nothing, or the flat logits with the shape of the tensor. */
  datatype RawOutput =
    | Failed
    | Tensor(values: seq<real>, shape: seq<nat>)
  {
    function Classes(): nat
      requires Tensor?
    {
      if |shape| >= 2 then shape[1] else 1
    }
  }

  type NetOutput = o: RawOutput | o.Tensor? ==> 1 <= o.Classes() <= |o.values| witness Failed

  /** The network is any function of ids and mask; `exp` any function that satisfies IsExp. */
  datatype Engine = Engine(net: (seq<int>, seq<int>) -> NetOutput, exp: real -> real)

  ghost predicate IsExp(exp: real -> real)
  {
    && (forall x :: exp(x) > 0.0)
    && (forall x, y :: Multiplies(exp, x, y))
  }

  ghost predicate Multiplies(exp: real -> real, x: real, y: real)
  {
    exp(x + y) == exp(x) * exp(y)
  }

  /** The model was not loaded, or fails on every input. */
  ghost predicate Unavailable(engine: Engine)
  {
    forall ids, mask :: engine.net(ids, mask).Failed?
  }

  const SIGNATURES: seq<string> := [
    "wget ", "curl ", "/bin/bash", "-> bash", "miner.sh", "chmod +x",
    "python -c", "perl -e", "base64 -d", ".onion", "xmrig"]

  predicate HasSignature(payload: Bytes)
  {
    exists i :: 0 <= i < |SIGNATURES| && Occurs(SIGNATURES[i], Text(payload))
  }

  /** One of the signatures, written out. */
  ghost predicate ContainsListed(text: string)
  {
    || Contains(text, "wget ") || Contains(text, "curl ") || Contains(text, "/bin/bash") || Contains(text, "-> bash")
    || Contains(text, "miner.sh") || Contains(text, "chmod +x") || Contains(text, "python -c")
    || Contains(text, "perl -e") || Contains(text, "base64 -d") || Contains(text, ".onion") || Contains(text, "xmrig")
  }

  /** A payload has a signature exactly when one of the eleven texts stands somewhere in it. */
  lemma SignatureExactly(payload: Bytes)
    ensures HasSignature(payload) <==> ContainsListed(Text(payload))
  {
    var text := Text(payload);
    forall i | 0 <= i < |SIGNATURES| ensures Occurs(SIGNATURES[i], text) <==> Contains(text, SIGNATURES[i]) {
      OccursIffContains(SIGNATURES[i], text);
    }
    assert SIGNATURES[0] == "wget " && SIGNATURES[1] == "curl " && SIGNATURES[2] == "/bin/bash";
    assert SIGNATURES[3] == "-> bash" && SIGNATURES[4] == "miner.sh" && SIGNATURES[5] == "chmod +x";
    assert SIGNATURES[6] == "python -c" && SIGNATURES[7] == "perl -e" && SIGNATURES[8] == "base64 -d";
    assert SIGNATURES[9] == ".onion" && SIGNATURES[10] == "xmrig";
  }

  // ---- Arithmetic ------------------------------------------------------------------------------

  /** sum of exp(l - shift) over the logits */
  ghost function SumExp(exp: real -> real, logits: seq<real>, shift: real): real
  {
    if logits == [] then 0.0
    else SumExp(exp, logits[..|logits| - 1], shift) + exp(logits[|logits| - 1] - shift)
  }

  ghost function Sigmoid(exp: real -> real, x: real): real
    requires IsExp(exp)
  {
    1.0 / (1.0 + exp(-x))
  }

  /** The probability softmax gives the last class, by its definition. */
  ghost function SoftmaxLast(exp: real -> real, logits: seq<real>): real
    requires IsExp(exp) && logits != []
  {
    SumExpCoversLast(exp, logits, 0.0);
    exp(logits[|logits| - 1]) / SumExp(exp, logits, 0.0)
  }

  lemma {:induction false} SumExpNonNegative(exp: real -> real, logits: seq<real>, shift: real)
    requires IsExp(exp)
    ensures SumExp(exp, logits, shift) >= 0.0
  {
    if logits != [] {
      SumExpNonNegative(exp, logits[..|logits| - 1], shift);
    }
  }

  /** A sum over the logits: of none, of one, and of two lists one after the other. */
  lemma {:induction false} SumExpIsTheSum(exp: real -> real, a: seq<real>, b: seq<real>, x: real, shift: real)
    ensures SumExp(exp, [], shift) == 0.0 && SumExp(exp, [x], shift) == exp(x - shift)
    ensures SumExp(exp, a + b, shift) == SumExp(exp, a, shift) + SumExp(exp, b, shift)
  {
    assert [x][..0] == [];
    if b == [] {
      assert a + b == a;
    } else {
      SumExpIsTheSum(exp, a, b[..|b| - 1], x, shift);
      assert (a + b)[..|a + b| - 1] == a + b[..|b| - 1];
    }
  }

  /** The last class's share of the whole. */
  lemma SoftmaxIsTheShare(exp: real -> real, logits: seq<real>)
    requires IsExp(exp) && logits != []
    ensures SoftmaxLast(exp, logits) * SumExp(exp, logits, 0.0) == exp(logits[|logits| - 1])
  {
    SumExpCoversLast(exp, logits, 0.0);
    var share := SoftmaxLast(exp, logits);
    assert share * SumExp(exp, logits, 0.0) == exp(logits[|logits| - 1]);
  }

  lemma SumExpCoversLast(exp: real -> real, logits: seq<real>, shift: real)
    requires IsExp(exp) && logits != []
    ensures 0.0 < exp(logits[|logits| - 1] - shift) <= SumExp(exp, logits, shift)
  {
    SumExpNonNegative(exp, logits[..|logits| - 1], shift);
  }

  lemma ExpOfZero(exp: real -> real)
    requires IsExp(exp)
    ensures exp(0.0) == 1.0
  {
    ExpAdds(exp, 0.0, 0.0, 0.0);
    OwnSquare(exp(0.0));
  }

  lemma ExpAdds(exp: real -> real, x: real, y: real, sum: real)
    requires IsExp(exp) && sum == x + y
    ensures exp(sum) == exp(x) * exp(y)
  {
    assert Multiplies(exp, x, y);
  }

  lemma OwnSquare(x: real)
    requires x > 0.0 && x == x * x
    ensures x == 1.0
  {
    var q := x / x;
    assert q * x == x && x * x == x;
  }

  /** Shifting by the largest logit keeps the denominator at 1 or more. */
  lemma {:induction false} ShiftedDenominator(exp: real -> real, logits: seq<real>, maxV: real)
    requires IsExp(exp) && maxV in logits
    ensures SumExp(exp, logits, maxV) >= 1.0
  {
    var last := logits[|logits| - 1];
    if last == maxV {
      ExpOfZero(exp);
      SumExpNonNegative(exp, logits[..|logits| - 1], maxV);
      assert last - maxV == 0.0;
    } else {
      ShiftedDenominator(exp, logits[..|logits| - 1], maxV);
    }
  }

  lemma ExpShift(exp: real -> real, x: real, shift: real)
    requires IsExp(exp)
    ensures exp(x - shift) * exp(shift) == exp(x)
  {
    assert Multiplies(exp, x - shift, shift);
    assert (x - shift) + shift == x;
  }

  lemma {:induction false} SumExpShift(exp: real -> real, logits: seq<real>, shift: real)
    requires IsExp(exp)
    ensures SumExp(exp, logits, shift) * exp(shift) == SumExp(exp, logits, 0.0)
  {
    if logits != [] {
      var front, last := logits[..|logits| - 1], logits[|logits| - 1];
      SumExpShift(exp, front, shift);
      ExpShift(exp, last, shift);
      assert last - 0.0 == last;
      Distribute(SumExp(exp, front, shift), exp(last - shift), exp(shift));
    }
  }

  lemma Distribute(a: real, b: real, c: real)
    ensures (a + b) * c == a * c + b * c
  {
  }

  lemma CancelFraction(a: real, b: real, c: real)
    requires b > 0.0 && c > 0.0
    ensures b * c > 0.0 && (a * c) / (b * c) == a / b
  {
    var q := a / b;
    assert q * b == a;
    assert q * (b * c) == a * c;
  }

  /** Shifting every logit alike does not change the softmax. */
  lemma ShiftKeepsSoftmax(exp: real -> real, logits: seq<real>, shift: real)
    requires IsExp(exp) && logits != []
    ensures SumExp(exp, logits, shift) > 0.0
    ensures exp(logits[|logits| - 1] - shift) / SumExp(exp, logits, shift) == SoftmaxLast(exp, logits)
  {
    var last := logits[|logits| - 1];
    SumExpCoversLast(exp, logits, shift);
    SumExpShift(exp, logits, shift);
    ExpShift(exp, last, shift);
    CancelFraction(exp(last - shift), SumExp(exp, logits, shift), exp(shift));
  }

  /** With two classes softmax is the sigmoid of the logit difference. */
  lemma TwoClassesAreSigmoid(exp: real -> real, a: real, b: real)
    requires IsExp(exp)
    ensures SoftmaxLast(exp, [a, b]) == Sigmoid(exp, b - a)
  {
    ShiftKeepsSoftmax(exp, [a, b], b);
    ExpOfZero(exp);
    assert [a, b][..1] == [a] && [a][..0] == [];
    assert SumExp(exp, [a], b) == exp(a - b);
    assert SumExp(exp, [a, b], b) == exp(a - b) + exp(b - b);
    assert -(b - a) == a - b && b - b == 0.0;
  }

  // ---- Scores ----------------------------------------------------------------------------------

  /** The probability of the threat class in an output, or -1 when there is none. */
  ghost function OutputScore(exp: real -> real, output: NetOutput): real
    requires IsExp(exp)
  {
    match output
    case Failed => -1.0
    case Tensor(values, shape) =>
      if output.Classes() == 1 then Sigmoid(exp, values[0]) else SoftmaxLast(exp, values[..output.Classes()])
  }

  /** The classes are the columns: dimension 1 of the tensor says how many of the logits count, and a tensor of
      lower rank has one class. */
  lemma ClassesAreColumns(exp: real -> real, values: seq<real>, shape: seq<nat>)
    requires IsExp(exp) && |values| >= 1 && (|shape| >= 2 ==> 1 <= shape[1] <= |values|)
    ensures OutputScore(exp, Failed) == -1.0
    ensures |shape| < 2 || shape[1] == 1 ==>
              OutputScore(exp, Tensor(values, shape)) == 1.0 / (1.0 + exp(-values[0]))
    ensures |shape| >= 2 && shape[1] >= 2 ==>
              OutputScore(exp, Tensor(values, shape)) == SoftmaxLast(exp, values[..shape[1]])
  {
  }

  /** One row of two or more logits, whatever the number of rows says: the softmax of all of them. */
  lemma RowIsSoftmax(exp: real -> real, values: seq<real>, rows: nat)
    requires IsExp(exp) && |values| >= 2
    ensures OutputScore(exp, Tensor(values, [rows, |values|])) == SoftmaxLast(exp, values)
  {
    assert values[..|values|] == values;
  }

  /** The ordinary output of a two-class model. */
  lemma TwoLogitsInARow(exp: real -> real, a: real, b: real)
    requires IsExp(exp)
    ensures OutputScore(exp, Tensor([a, b], [1, 2])) == 1.0 / (1.0 + exp(-(b - a)))
  {
    RowIsSoftmax(exp, [a, b], 1);
    TwoClassesAreSigmoid(exp, a, b);
  }

  /** run_model_inference */
  ghost function ModelScore(engine: Engine, payload: Bytes): real
    requires IsExp(engine.exp)
  {
    OutputScore(engine.exp, engine.net(Ids(payload), Mask(payload)))
  }

  /** infer: the model's answer, or the signature heuristic when there is none. */
  ghost function InferScore(engine: Engine, payload: Bytes): real
    requires IsExp(engine.exp)
  {
    if engine.net(Ids(payload), Mask(payload)).Failed?
    then if HasSignature(payload) then 0.99 else 0.05
    else ModelScore(engine, payload)
  }

  /** std::max_element */
  method MaxElement(values: seq<real>) returns (maxV: real)
    requires values != []
    ensures maxV in values && forall i :: 0 <= i < |values| ==> values[i] <= maxV
  {
    maxV := values[0];
    for i := 1 to |values|
      invariant maxV in values && forall k :: 0 <= k < i ==> values[k] <= maxV
    {
      if maxV < values[i] {
        maxV := values[i];
      }
    }
  }

  method RunModelInference(engine: Engine, payload: Bytes) returns (score: real)
    requires IsExp(engine.exp)
    ensures score == ModelScore(engine, payload)
    ensures var o := engine.net(Ids(payload), Mask(payload));
            && (o.Failed? ==> score == -1.0)
            && (o.Tensor? && (|o.shape| < 2 || o.shape[1] == 1) ==>
                  score == 1.0 / (1.0 + engine.exp(-o.values[0])))
            && (o.Tensor? && |o.shape| >= 2 && o.shape[1] != 1 ==>
                  score == SoftmaxLast(engine.exp, o.values[..o.shape[1]]))
  {
    var ids, mask := TokenizeFresh(payload);
    var output := engine.net(ids, mask);
    if output.Failed? {
      return -1.0;
    }
    var n := output.Classes();
    if n == 1 {
      return 1.0 / (1.0 + engine.exp(-output.values[0]));
    }
    score := SoftmaxTail(engine.exp, output.values[..n]);
  }

  /** The max-shift loop at the end of run_model_inference. */
  method SoftmaxTail(exp: real -> real, logits: seq<real>) returns (score: real)
    requires IsExp(exp) && logits != []
    ensures score == SoftmaxLast(exp, logits)
  {
    var maxV := MaxElement(logits);
    var sum := 0.0;
    for i := 0 to |logits|
      invariant sum == SumExp(exp, logits[..i], maxV)
    {
      assert logits[..i + 1][..i] == logits[..i];
      sum := sum + exp(logits[i] - maxV);
    }
    assert logits[..|logits|] == logits;
    ShiftedDenominator(exp, logits, maxV);
    ShiftKeepsSoftmax(exp, logits, maxV);
    score := exp(logits[|logits| - 1] - maxV) / sum;
  }

  method HeuristicScore(payload: Bytes) returns (score: real)
    ensures score == if HasSignature(payload) then 0.99 else 0.05
    ensures score == if ContainsListed(Text(payload)) then 0.99 else 0.05
  {
    SignatureExactly(payload);
    var data := Text(payload);
    for i := 0 to |SIGNATURES|
      invariant forall k :: 0 <= k < i ==> !Occurs(SIGNATURES[k], data)
    {
      if Occurs(SIGNATURES[i], data) {
        return 0.99;
      }
    }
    return 0.05;
  }

  method Infer(engine: Engine, payload: Bytes) returns (score: real)
    requires IsExp(engine.exp)
    ensures score == InferScore(engine, payload)
  {
    ModelScoreRange(engine, payload);
    score := RunModelInference(engine, payload);
    if score >= 0.0 {
      return;
    }
    score := HeuristicScore(payload);
  }

  /** The model's answer, unless it fails: then 0.99 or 0.05, by the texts listed. */
  lemma InferExactly(engine: Engine, payload: Bytes)
    requires IsExp(engine.exp)
    ensures InferScore(engine, payload) ==
            if !engine.net(Ids(payload), Mask(payload)).Failed? then ModelScore(engine, payload)
            else if ContainsListed(Text(payload)) then 0.99 else 0.05
  {
    SignatureExactly(payload);
  }

  lemma FractionRange(a: real, b: real)
    requires 0.0 < a <= b
    ensures 0.0 < a / b <= 1.0
  {
    var q := a / b;
    assert q * b == a;
  }

  /** The sentinel -1 means failure and nothing else; a model's score is a probability. */
  lemma ModelScoreRange(engine: Engine, payload: Bytes)
    requires IsExp(engine.exp)
    ensures if engine.net(Ids(payload), Mask(payload)).Failed? then ModelScore(engine, payload) == -1.0
            else 0.0 < ModelScore(engine, payload) <= 1.0
  {
    var output := engine.net(Ids(payload), Mask(payload));
    if output.Tensor? {
      var n := output.Classes();
      if n == 1 {
        FractionRange(1.0, 1.0 + engine.exp(-output.values[0]));
      } else {
        var logits := output.values[..n];
        SumExpCoversLast(engine.exp, logits, 0.0);
        assert logits[n - 1] - 0.0 == logits[n - 1];
        FractionRange(engine.exp(logits[n - 1]), SumExp(engine.exp, logits, 0.0));
      }
    }
  }

  /** infer always answers with a probability: the sentinel never escapes. */
  lemma InferIsAProbability(engine: Engine, payload: Bytes)
    requires IsExp(engine.exp)
    ensures 0.0 <= InferScore(engine, payload) <= 1.0
  {
    ModelScoreRange(engine, payload);
  }

  /** Beyond byte 510 a loaded model is blind: such bytes never change its answer. */
  lemma ModelIgnoresTheTail(engine: Engine, payload: Bytes, other: Bytes)
    requires IsExp(engine.exp) && |payload| >= 512
    ensures ModelScore(engine, payload[..510] + other) == ModelScore(engine, payload)
  {
    ReadyPayloadFillsTheInput(payload, other);
  }

  // ---- The heuristic and the threshold ---------------------------------------------------------

  lemma SignaturesAreNotEmpty()
    ensures forall i :: 0 <= i < |SIGNATURES| ==> SIGNATURES[i] != [] && SIGNATURES[i][0] != 0 as char
  {
  }

  /** A zero-filled payload has no signature; one that starts with "xmrig" has one. */
  lemma Witnesses() returns (clean: Bytes, dirty: Bytes)
    ensures |clean| == 512 && |dirty| == 512 && !HasSignature(clean) && HasSignature(dirty)
  {
    clean := seq(512, _ => 0);
    var word: Bytes := [120, 109, 114, 105, 103];
    dirty := word + seq(507, _ => 0);
    SignaturesAreNotEmpty();
    forall i | 0 <= i < |SIGNATURES| ensures !Occurs(SIGNATURES[i], Text(clean)) {
      forall at | 0 <= at <= 512 - |SIGNATURES[i]| ensures !OccursAt(SIGNATURES[i], Text(clean), at) {
        assert Text(clean)[at..at + |SIGNATURES[i]|][0] == 0 as char;
      }
    }
    assert SIGNATURES[10] == "xmrig";
    assert Text(dirty)[0..5] == "xmrig";
    assert OccursAt(SIGNATURES[10], Text(dirty), 0);
  }

  /** Without a model, "score above threshold" means "contains a signature" exactly for 0.05 <= threshold < 0.99. */
  lemma ThresholdIsExact(engine: Engine, threshold: real)
    requires IsExp(engine.exp) && Unavailable(engine)
    ensures (forall payload: Bytes :: |payload| >= 512 ==>
               (InferScore(engine, payload) > threshold <==> HasSignature(payload))) <==>
            0.05 <= threshold < 0.99
  {
    var clean, dirty := Witnesses();
    assert InferScore(engine, clean) == 0.05 && InferScore(engine, dirty) == 0.99;
  }

  // ---- The proxy's copy of the arithmetic ------------------------------------------------------

  /** All the logits there are, whatever the shape. */
  ghost function FlatScore(exp: real -> real, output: NetOutput): real
    requires IsExp(exp)
  {
    match output
    case Failed => -1.0
    case Tensor(values, _) => if |values| == 1 then Sigmoid(exp, values[0]) else SoftmaxLast(exp, values)
  }

  /** _onnx_score */
  ghost function ProxyScore(engine: Engine, raw: Bytes): real
    requires IsExp(engine.exp)
  {
    FlatScore(engine.exp, engine.net(Ids(raw), Mask(raw)))
  }

  method OnnxScore(engine: Engine, raw: Bytes) returns (score: real)
    requires IsExp(engine.exp)
    ensures score == ProxyScore(engine, raw)
    ensures var o := engine.net(Ids(raw), Mask(raw));
            && (o.Failed? ==> score == -1.0)
            && (o.Tensor? && |o.values| == 1 ==> score == 1.0 / (1.0 + engine.exp(-o.values[0])))
            && (o.Tensor? && |o.values| != 1 ==> score == SoftmaxLast(engine.exp, o.values))
  {
    var ids, mask := TokenizeByLists(raw);
    var output := engine.net(ids, mask);
    if output.Failed? {
      return -1.0;
    }
    if |output.values| == 1 {
      return 1.0 / (1.0 + engine.exp(-output.values[0]));
    }
    score := SoftmaxTail(engine.exp, output.values);
  }

  /** Probe and proxy give every tensor of `n` logits with this shape the same score. */
  ghost predicate ScoredAlike(exp: real -> real, shape: seq<nat>, n: nat)
    requires IsExp(exp) && 1 <= Tensor([], shape).Classes() <= n
  {
    forall values: seq<real> :: |values| == n ==>
      OutputScore(exp, Tensor(values, shape)) == FlatScore(exp, Tensor(values, shape))
  }

  /** With equal logits softmax is 1 in the number of classes. */
  lemma {:induction false} SumExpOfZeros(exp: real -> real, zeros: seq<real>)
    requires IsExp(exp) && forall i :: 0 <= i < |zeros| ==> zeros[i] == 0.0
    ensures SumExp(exp, zeros, 0.0) == |zeros| as real
  {
    if zeros != [] {
      ExpOfZero(exp);
      SumExpOfZeros(exp, zeros[..|zeros| - 1]);
    }
  }

  lemma SoftmaxOfZeros(exp: real -> real, zeros: seq<real>)
    requires IsExp(exp) && zeros != [] && forall i :: 0 <= i < |zeros| ==> zeros[i] == 0.0
    ensures SoftmaxLast(exp, zeros) == 1.0 / |zeros| as real
  {
    ExpOfZero(exp);
    SumExpOfZeros(exp, zeros);
  }

  lemma ReciprocalsDiffer(c: nat, n: nat)
    requires 0 < c < n
    ensures 1.0 / c as real != 1.0 / n as real
  {
    var p, q := 1.0 / c as real, 1.0 / n as real;
    assert p * c as real == 1.0 && q * n as real == 1.0;
    assert p > 0.0;
    assert p * n as real == p * c as real + p * (n - c) as real > q * n as real;
  }

  lemma SigmoidOfZero(exp: real -> real)
    requires IsExp(exp)
    ensures Sigmoid(exp, 0.0) == 0.5
  {
    ExpOfZero(exp);
    assert -0.0 == 0.0;
  }

  /** The sigmoid leaves one half where exp leaves one. */
  lemma SigmoidMoves(exp: real -> real, x: real)
    requires IsExp(exp) && exp(x) != 1.0
    ensures Sigmoid(exp, x) != 0.5
  {
    ExpOfZero(exp);
    ExpShift(exp, 0.0, x);
    assert 0.0 - x == -x;
    assert Sigmoid(exp, x) * (1.0 + exp(-x)) == 1.0;
  }

  /** Fewer classes than logits: some tensor of that shape is scored differently. */
  lemma ShapeParts(exp: real -> real, shape: seq<nat>, n: nat, x: real)
    requires IsExp(exp) && exp(x) != 1.0
    requires 1 <= Tensor([], shape).Classes() < n
    ensures !ScoredAlike(exp, shape, n)
  {
    var c := Tensor([], shape).Classes();
    if n == 2 {
      var output: NetOutput := Tensor([0.0, x], shape);
      SigmoidOfZero(exp);
      TwoClassesAreSigmoid(exp, 0.0, x);
      assert x - 0.0 == x;
      SigmoidMoves(exp, x);
      assert OutputScore(exp, output) != FlatScore(exp, output);
    } else {
      var zeros := seq(n, _ => 0.0);
      var output: NetOutput := Tensor(zeros, shape);
      SoftmaxOfZeros(exp, zeros);
      if c == 1 {
        SigmoidOfZero(exp);
        ReciprocalsDiffer(2, n);
      } else {
        SoftmaxOfZeros(exp, zeros[..c]);
        ReciprocalsDiffer(c, n);
      }
      assert OutputScore(exp, output) != FlatScore(exp, output);
    }
  }

  /** Probe and proxy score every tensor of a shape alike exactly when its class count takes in all the logits. */
  lemma ScoresAlikeExactly(exp: real -> real, shape: seq<nat>, n: nat)
    requires IsExp(exp) && exists x :: exp(x) != 1.0
    requires 1 <= Tensor([], shape).Classes() <= n
    ensures ScoredAlike(exp, shape, n) <==> (if |shape| >= 2 then shape[1] else 1) == n
  {
    if Tensor([], shape).Classes() == n {
      forall values: seq<real> | |values| == n
        ensures OutputScore(exp, Tensor(values, shape)) == FlatScore(exp, Tensor(values, shape))
      {
        assert values[..n] == values;
      }
    } else {
      var x :| exp(x) != 1.0;
      ShapeParts(exp, shape, n, x);
    }
  }

  /** For one payload: probe and proxy agree when the output is one row of all the logits. */
  lemma ProxyAgreesOnOneRow(engine: Engine, payload: Bytes)
    requires IsExp(engine.exp)
    requires var o := engine.net(Ids(payload), Mask(payload)); o.Tensor? ==> o.Classes() == |o.values|
    ensures ProxyScore(engine, payload) == ModelScore(engine, payload)
  {
    var o := engine.net(Ids(payload), Mask(payload));
    if o.Tensor? {
      assert o.values[..|o.values|] == o.values;
    }
  }

  /** The smallest witness of the other side: two logits in a tensor of rank one. */
  lemma ProxyDiffersOnRankOne(exp: real -> real)
    requires IsExp(exp) && exp(1.0) != 1.0
    ensures var engine := Engine((_, _) => Tensor([0.0, 1.0], [2]), exp);
            ModelScore(engine, []) == Sigmoid(exp, 0.0) && ProxyScore(engine, []) == Sigmoid(exp, 1.0) &&
            ProxyScore(engine, []) != ModelScore(engine, [])
  {
    TwoClassesAreSigmoid(exp, 0.0, 1.0);
    SigmoidOfZero(exp);
    SigmoidMoves(exp, 1.0);
    assert 1.0 - 0.0 == 1.0;
  }
}
