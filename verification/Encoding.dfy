/**
 The three byte-level tokenizers: ONNXEngine::tokenize (src/inference/onnx_engine.cpp) fills two vectors
 by index, Tokenizer::encode (src/capture/tokenizer.cpp) pushes back, _tokenize (waf/waf_proxy.py)
 concatenates lists.
 */
module Encoding {
  import opened Common

  const MAX_LEN: nat := 512

  const PAD := 0

  /** How many payload bytes fit between CLS and SEP. */
  function Fill(payload: Bytes): nat
  {
    if |payload| < MAX_LEN - 2 then |payload| else MAX_LEN - 2
  }

  /** The token at position `i`: CLS, the first 510 bytes shifted, SEP, then PAD. */
  function TokenAt(payload: Bytes, cls: int, sep: int, shift: int, i: nat): int
  {
    if i == 0 then cls
    else if i <= Fill(payload) then payload[i - 1] as int + shift
    else if i == Fill(payload) + 1 then sep
    else PAD
  }

  function Tokens(payload: Bytes, cls: int, sep: int, shift: int): (tokens: seq<int>)
    ensures |tokens| == MAX_LEN
    ensures forall i :: 0 <= i < MAX_LEN ==> tokens[i] == TokenAt(payload, cls, sep, shift, i)
  {
    seq(MAX_LEN, i requires 0 <= i < MAX_LEN => TokenAt(payload, cls, sep, shift, i))
  }

  /** What the model is fed: 0 = PAD, 1 = CLS, 2 = SEP, byte + 3. */
  function Ids(payload: Bytes): seq<int>
  {
    Tokens(payload, 1, 2, 3)
  }

  function Mask(payload: Bytes): (mask: seq<int>)
    ensures |mask| == MAX_LEN
    ensures forall i :: 0 <= i < MAX_LEN ==> mask[i] == if i <= Fill(payload) + 1 then 1 else 0
  {
    seq(MAX_LEN, i requires 0 <= i < MAX_LEN => if i <= Fill(payload) + 1 then 1 else 0)
  }

  /** CLS, the bytes up to the 510th moved by `shift`, SEP, and zeros: 512 tokens. */
  ghost predicate Encodes(tokens: seq<int>, payload: Bytes, cls: int, sep: int, shift: int)
  {
    var fill := if |payload| < 510 then |payload| else 510;
    && |tokens| == 512 && tokens[0] == cls && tokens[fill + 1] == sep
    && (forall i :: 0 <= i < fill ==> tokens[i + 1] == payload[i] as int + shift)
    && forall i :: fill + 2 <= i < 512 ==> tokens[i] == 0
  }

  /** 1 on every position of CLS, the bytes and SEP, and 0 on the padding. */
  ghost predicate Covers(mask: seq<int>, payload: Bytes)
  {
    |mask| == 512 && forall i :: 0 <= i < 512 ==> mask[i] == if i < |payload| + 2 then 1 else 0
  }

  lemma EncodingExactly(payload: Bytes, cls: int, sep: int, shift: int)
    ensures Encodes(Tokens(payload, cls, sep, shift), payload, cls, sep, shift)
    ensures Encodes(Ids(payload), payload, 1, 2, 3)
    ensures Covers(Mask(payload), payload)
  {
  }

  /** ONNXEngine::tokenize after its two resize calls: positions past SEP keep what they held. */
  method FillByIndex(payload: Bytes, ids: array<int>, mask: array<int>)
    requires ids != mask && ids.Length == MAX_LEN && mask.Length == MAX_LEN
    modifies ids, mask
    ensures ids[..] == Ids(payload)[..Fill(payload) + 2] + old(ids[..])[Fill(payload) + 2..]
    ensures mask[..] == Mask(payload)[..Fill(payload) + 2] + old(mask[..])[Fill(payload) + 2..]
  {
    ids[0] := 1;
    mask[0] := 1;
    var fill := if |payload| < MAX_LEN - 2 then |payload| else MAX_LEN - 2;
    for i := 0 to fill
      invariant forall k :: 0 <= k <= i ==> ids[k] == Ids(payload)[k] && mask[k] == 1
      invariant forall k :: i < k < MAX_LEN ==> ids[k] == old(ids[k]) && mask[k] == old(mask[k])
    {
      ids[i + 1] := payload[i] as int + 3;
      mask[i + 1] := 1;
    }
    var sepPos := fill + 1;
    if sepPos < MAX_LEN {
      ids[sepPos] := 2;
      mask[sepPos] := 1;
    }
  }

  /** The call in run_model_inference: both vectors are new, so resize zero-fills them. */
  method TokenizeFresh(payload: Bytes) returns (ids: seq<int>, mask: seq<int>)
    ensures ids == Ids(payload) && mask == Mask(payload)
    ensures Encodes(ids, payload, 1, 2, 3) && Covers(mask, payload)
  {
    EncodingExactly(payload, 1, 2, 3);
    var idArray := new int[MAX_LEN](_ => PAD);
    var maskArray := new int[MAX_LEN](_ => 0);
    FillByIndex(payload, idArray, maskArray);
    ids := idArray[..];
    mask := maskArray[..];
  }

  /** On a reused vector the encoding is right exactly when the part past SEP was already zero. */
  lemma {:induction false} StaleTailShows(payload: Bytes, before: seq<int>)
    requires |before| == MAX_LEN
    ensures Ids(payload)[..Fill(payload) + 2] + before[Fill(payload) + 2..] == Ids(payload) <==>
            forall i :: Fill(payload) + 2 <= i < MAX_LEN ==> before[i] == PAD
  {
    var n := Fill(payload) + 2;
    var mixed := Ids(payload)[..n] + before[n..];
    assert forall i :: n <= i < MAX_LEN ==> mixed[i] == before[i] && Ids(payload)[i] == PAD;
  }

  /** Tokenizer::encode */
  method EncodeByPushBack(payload: Bytes) returns (tokens: seq<int>)
    ensures tokens == Tokens(payload, 101, 102, 200)
    ensures Encodes(tokens, payload, 101, 102, 200)
  {
    EncodingExactly(payload, 101, 102, 200);
    tokens := [101];
    var i := 0;
    while i < |payload| && i < 510
      invariant 0 <= i <= Fill(payload)
      invariant tokens == Tokens(payload, 101, 102, 200)[..i + 1]
    {
      tokens := tokens + [payload[i] as int + 200];
      i := i + 1;
    }
    tokens := tokens + [102];
    while |tokens| < 512
      invariant Fill(payload) + 2 <= |tokens| <= 512
      invariant tokens == Tokens(payload, 101, 102, 200)[..|tokens|]
    {
      tokens := tokens + [0];
    }
  }

  /** _tokenize, on the bytes of the text. */
  method TokenizeByLists(raw: Bytes) returns (ids: seq<int>, mask: seq<int>)
    ensures ids == Ids(raw) && mask == Mask(raw)
    ensures Encodes(ids, raw, 1, 2, 3) && Covers(mask, raw)
  {
    EncodingExactly(raw, 1, 2, 3);
    var head := raw[..if |raw| < MAX_LEN - 2 then |raw| else MAX_LEN - 2];
    ids := [1] + seq(|head|, i requires 0 <= i < |head| => head[i] as int + 3) + [2];
    mask := seq(|ids|, _ => 1);
    ids := ids + seq(MAX_LEN - |ids|, _ => 0);
    mask := mask + seq(MAX_LEN - |mask|, _ => 0);
    assert forall k :: 0 <= k < |head| ==> ids[k + 1] == head[k] as int + 3;
    assert ids == Ids(raw);
    assert mask == Mask(raw);
  }

  // ---- Two vocabularies, one encoding ----------------------------------------------------------

  /** From the vocabulary of the engine to that of Tokenizer::encode. */
  function Rename(token: int): int
  {
    if token == 0 then 0 else if token == 1 then 101 else if token == 2 then 102 else token - 3 + 200
  }

  predicate IsToken(token: int)
  {
    0 <= token < 3 + 256
  }

  /** Tokenizer::encode gives the engine's ids renamed, and the renaming loses nothing; the two are never equal. */
  lemma {:induction false} VocabulariesAgree(payload: Bytes)
    ensures forall i :: 0 <= i < MAX_LEN ==>
              IsToken(Ids(payload)[i]) && Tokens(payload, 101, 102, 200)[i] == Rename(Ids(payload)[i])
    ensures forall s, t :: IsToken(s) && IsToken(t) && Rename(s) == Rename(t) ==> s == t
    ensures Tokens(payload, 101, 102, 200) != Ids(payload)
  {
    forall i | 0 <= i < MAX_LEN
      ensures IsToken(Ids(payload)[i]) && Tokens(payload, 101, 102, 200)[i] == Rename(Ids(payload)[i])
    {
    }
    assert Tokens(payload, 101, 102, 200)[0] != Ids(payload)[0];
  }

  /** Hence the two tokenizers tell the same payloads apart. */
  lemma VocabulariesDistinguishAlike(p: Bytes, q: Bytes)
    ensures Tokens(p, 101, 102, 200) == Tokens(q, 101, 102, 200) <==> Ids(p) == Ids(q)
  {
    VocabulariesAgree(p);
    VocabulariesAgree(q);
    if Tokens(p, 101, 102, 200) == Tokens(q, 101, 102, 200) {
      forall i | 0 <= i < MAX_LEN ensures Ids(p)[i] == Ids(q)[i] {
        assert Rename(Ids(p)[i]) == Rename(Ids(q)[i]);
      }
    }
  }

  // ---- Reading the payload back ----------------------------------------------------------------

  /** The bytes from position `i` up to the first SEP. */
  function ReadBack(ids: seq<int>, i: nat): Bytes
    decreases |ids| - i
  {
    if i >= |ids| || !(3 <= ids[i] < 3 + 256) then [] else [ids[i] - 3] + ReadBack(ids, i + 1)
  }

  lemma {:induction false} ReadBackFrom(payload: Bytes, i: nat)
    requires i <= Fill(payload)
    ensures ReadBack(Ids(payload), i + 1) == payload[i..Fill(payload)]
    decreases Fill(payload) - i
  {
    if i < Fill(payload) {
      ReadBackFrom(payload, i + 1);
    }
  }

  /** Reading up to SEP recovers the first min(n, 510) bytes. */
  lemma TokensReadBack(payload: Bytes)
    ensures ReadBack(Ids(payload), 1) == payload[..if |payload| < 510 then |payload| else 510]
  {
    ReadBackFrom(payload, 0);
  }

  /** Two payloads look the same to the model exactly when their first 510 bytes are the same. */
  lemma SameIdsIffSamePrefix(p: Bytes, q: Bytes)
    ensures Ids(p) == Ids(q) && Mask(p) == Mask(q) <==>
            p[..if |p| < 510 then |p| else 510] == q[..if |q| < 510 then |q| else 510]
  {
    TokensReadBack(p);
    TokensReadBack(q);
    if p[..Fill(p)] == q[..Fill(q)] {
      assert |p[..Fill(p)]| == |q[..Fill(q)]|;
      forall i | 0 <= i < Fill(p) ensures p[i] == q[i] {
        assert p[..Fill(p)][i] == q[..Fill(q)][i];
      }
      assert Ids(p) == Ids(q);
    }
    if Ids(p) == Ids(q) {
      assert |p[..Fill(p)]| == |q[..Fill(q)]|;
    }
  }

  /** There is one SEP, and the mask covers exactly the positions up to it. */
  lemma MaskEndsAtTheOnlySep(payload: Bytes, i: nat)
    requires i < 512
    ensures Ids(payload)[i] == 2 <==> i == (if |payload| < 510 then |payload| else 510) + 1
    ensures Mask(payload)[i] == 1 <==> exists j :: i <= j < 512 && Ids(payload)[j] == 2
    ensures Mask(payload)[i] == 0 <==> Ids(payload)[i] == 0
  {
    assert Ids(payload)[Fill(payload) + 1] == 2;
  }

  /** A payload of 512 bytes or more leaves no padding, and its bytes from 510 on are never seen. */
  lemma {:induction false} ReadyPayloadFillsTheInput(payload: Bytes, other: Bytes)
    requires |payload| >= 512
    ensures 0 !in Ids(payload) && Ids(payload)[511] == 2
    ensures forall i :: 0 <= i < 512 ==> Mask(payload)[i] == 1
    ensures Ids(payload[..510] + other) == Ids(payload) && Mask(payload[..510] + other) == Mask(payload)
  {
    var q := payload[..510] + other;
    assert q[..Fill(q)] == payload[..510] == payload[..Fill(payload)];
    SameIdsIffSamePrefix(q, payload);
  }
}
