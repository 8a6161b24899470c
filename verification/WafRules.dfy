/** The reverse proxy's decision: ai_threat_detection and the 0.95 test in waf/waf_proxy.py. */
module WafRules {
  import opened Common
  import opened Scoring

  const HIGH_RISK_SIGS: seq<(string, real)> := [
    ("union select", 0.99), ("1=1", 0.97), ("<script>", 0.98), ("javascript:", 0.97), ("cmd.exe", 0.99),
    ("/etc/passwd", 0.99), ("../../../", 0.96), ("wget ", 0.95), ("curl ", 0.95), ("base64 -d", 0.96)]

  function LowerChar(c: char): char
  {
    if 'A' <= c <= 'Z' then c + 32 as char else c
  }

  /** str.lower() on ASCII */
  function Lower(text: string): (lowered: string)
    ensures |lowered| == |text|
    ensures forall i :: 0 <= i < |text| ==>
              if 65 <= text[i] as int <= 90 then lowered[i] as int == text[i] as int + 32 else lowered[i] == text[i]
  {
    seq(|text|, i requires 0 <= i < |text| => LowerChar(text[i]))
  }

  predicate Hits(i: nat, text: string)
    requires i < |HIGH_RISK_SIGS|
  {
    Occurs(HIGH_RISK_SIGS[i].0, Lower(text))
  }

  /** The score of a request: `encoded` is its UTF-8 form, which only the model reads. */
  ghost predicate IsScore(score: real, engine: Engine, text: string, encoded: Bytes)
    requires IsExp(engine.exp)
  {
    if exists i :: 0 <= i < |HIGH_RISK_SIGS| && Hits(i, text) then
      exists i :: 0 <= i < |HIGH_RISK_SIGS| && Hits(i, text) && score == HIGH_RISK_SIGS[i].1 &&
                  forall j :: 0 <= j < i ==> !Hits(j, text)
    else
      score == if ProxyScore(engine, encoded) >= 0.0 then ProxyScore(engine, encoded) else 0.01
  }

  /** The rules in the order they are tried, written out: `otherwise` is the score when none is found. */
  ghost function RuleScore(lowered: string, otherwise: real): real
  {
    if Contains(lowered, "union select") then 0.99
    else if Contains(lowered, "1=1") then 0.97
    else if Contains(lowered, "<script>") then 0.98
    else if Contains(lowered, "javascript:") then 0.97
    else if Contains(lowered, "cmd.exe") then 0.99
    else if Contains(lowered, "/etc/passwd") then 0.99
    else if Contains(lowered, "../../../") then 0.96
    else if Contains(lowered, "wget ") then 0.95
    else if Contains(lowered, "curl ") then 0.95
    else if Contains(lowered, "base64 -d") then 0.96
    else otherwise
  }

  lemma HitsWrittenOut(text: string)
    ensures Hits(0, text) <==> Contains(Lower(text), "union select")
    ensures Hits(1, text) <==> Contains(Lower(text), "1=1")
    ensures Hits(2, text) <==> Contains(Lower(text), "<script>")
    ensures Hits(3, text) <==> Contains(Lower(text), "javascript:")
    ensures Hits(4, text) <==> Contains(Lower(text), "cmd.exe")
    ensures Hits(5, text) <==> Contains(Lower(text), "/etc/passwd")
    ensures Hits(6, text) <==> Contains(Lower(text), "../../../")
    ensures Hits(7, text) <==> Contains(Lower(text), "wget ")
    ensures Hits(8, text) <==> Contains(Lower(text), "curl ")
    ensures Hits(9, text) <==> Contains(Lower(text), "base64 -d")
  {
    forall i | 0 <= i < |HIGH_RISK_SIGS| ensures Hits(i, text) <==> Contains(Lower(text), HIGH_RISK_SIGS[i].0) {
      OccursIffContains(HIGH_RISK_SIGS[i].0, Lower(text));
    }
  }

  lemma FirstHitScores(k: nat, text: string, otherwise: real)
    requires k < |HIGH_RISK_SIGS| && Hits(k, text) && forall j :: 0 <= j < k ==> !Hits(j, text)
    ensures RuleScore(Lower(text), otherwise) == HIGH_RISK_SIGS[k].1
  {
    HitsWrittenOut(text);
  }

  lemma NoHitScores(text: string, otherwise: real)
    requires forall j :: 0 <= j < |HIGH_RISK_SIGS| ==> !Hits(j, text)
    ensures RuleScore(Lower(text), otherwise) == otherwise
  {
    HitsWrittenOut(text);
  }

  lemma FirstHit(i: nat, text: string) returns (k: nat)
    requires i < |HIGH_RISK_SIGS| && Hits(i, text)
    ensures k <= i && Hits(k, text) && forall j :: 0 <= j < k ==> !Hits(j, text)
  {
    k := 0;
    while !Hits(k, text)
      invariant k <= i && forall j :: 0 <= j < k ==> !Hits(j, text)
      decreases i - k
    {
      k := k + 1;
    }
  }

  /** The score of a request is that of the first rule found, else the model's answer, else 0.01. */
  lemma ScoreExactly(score: real, engine: Engine, text: string, encoded: Bytes)
    requires IsExp(engine.exp)
    ensures IsScore(score, engine, text, encoded) <==>
            score == RuleScore(Lower(text), var m := ProxyScore(engine, encoded); if m >= 0.0 then m else 0.01)
  {
    var m := ProxyScore(engine, encoded);
    var otherwise := if m >= 0.0 then m else 0.01;
    if exists i :: 0 <= i < |HIGH_RISK_SIGS| && Hits(i, text) {
      var i: nat :| i < |HIGH_RISK_SIGS| && Hits(i, text);
      var k := FirstHit(i, text);
      FirstHitScores(k, text, otherwise);
    } else {
      NoHitScores(text, otherwise);
    }
  }

  method AiThreatDetection(engine: Engine, text: string, encoded: Bytes) returns (score: real)
    requires IsExp(engine.exp)
    ensures IsScore(score, engine, text, encoded)
    ensures score == RuleScore(Lower(text), var m := ProxyScore(engine, encoded); if m >= 0.0 then m else 0.01)
  {
    var lowered := Lower(text);
    for i := 0 to |HIGH_RISK_SIGS|
      invariant forall j :: 0 <= j < i ==> !Hits(j, text)
    {
      if Occurs(HIGH_RISK_SIGS[i].0, lowered) {
        assert Hits(i, text);
        ScoreExactly(HIGH_RISK_SIGS[i].1, engine, text, encoded);
        return HIGH_RISK_SIGS[i].1;
      }
    }
    var modelScore := OnnxScore(engine, encoded);
    score := if modelScore >= 0.0 then modelScore else 0.01;
    ScoreExactly(score, engine, text, encoded);
  }

  lemma LowerAppend(a: string, b: string)
    ensures Lower(a + b) == Lower(a) + Lower(b)
  {
  }

  predicate SameLetter(c: char, d: char)
  {
    || c == d
    || ('A' <= c <= 'Z' && d as int == c as int + 32)
    || ('A' <= d <= 'Z' && c as int == d as int + 32)
  }

  /** Changing the case of letters hides no signature and invents none. */
  lemma CaseIsIgnored(i: nat, text: string, text': string)
    requires i < |HIGH_RISK_SIGS| && |text| == |text'|
    requires forall k :: 0 <= k < |text| ==> SameLetter(text[k], text'[k])
    ensures Hits(i, text) <==> Hits(i, text')
  {
    assert Lower(text) == Lower(text');
  }

  /** A signature stays found whatever is written around it. */
  lemma HitSurvivesEmbedding(i: nat, before: string, text: string, after: string)
    requires i < |HIGH_RISK_SIGS| && Hits(i, text)
    ensures Hits(i, before + text + after)
  {
    LowerAppend(before, text);
    LowerAppend(before + text, after);
    OccursInside(HIGH_RISK_SIGS[i].0, Lower(before), Lower(text), Lower(after));
  }

  /** The first signature found can only move up the list when a text is embedded in a longer one. */
  lemma EmbeddingLowersTheFirstHit(i: nat, before: string, text: string, after: string)
    requires i < |HIGH_RISK_SIGS| && Hits(i, text)
    ensures exists k :: 0 <= k <= i && Hits(k, before + text + after) &&
                        forall j :: 0 <= j < k ==> !Hits(j, before + text + after)
  {
    HitSurvivesEmbedding(i, before, text, after);
    var k := FirstHit(i, before + text + after);
  }

  /** What brings a 403, which is a score above 0.95: one of the first seven, or base64 without wget or curl, or
      the model alone. */
  lemma BlocksExactly(score: real, engine: Engine, text: string, encoded: Bytes)
    requires IsExp(engine.exp) && IsScore(score, engine, text, encoded)
    ensures score > 0.95 <==>
            || (exists i :: 0 <= i < 7 && Hits(i, text))
            || (Hits(9, text) && !Hits(7, text) && !Hits(8, text))
            || ((forall i :: 0 <= i < |HIGH_RISK_SIGS| ==> !Hits(i, text)) && ProxyScore(engine, encoded) > 0.95)
  {
  }

  /** A text with one of the first seven signatures is blocked however it is embedded, whatever the model says. */
  lemma FirstSevenBlockEverywhere(i: nat, before: string, text: string, after: string,
                                  score: real, engine: Engine, encoded: Bytes)
    requires i < 7 && Hits(i, text)
    requires IsExp(engine.exp) && IsScore(score, engine, before + text + after, encoded)
    ensures score > 0.95
  {
    HitSurvivesEmbedding(i, before, text, after);
    BlocksExactly(score, engine, before + text + after, encoded);
  }

  /** wget and curl without one of the first seven let the request through, even past a certain model. */
  lemma WgetShadowsTheModel(text: string, score: real, engine: Engine, encoded: Bytes)
    requires IsExp(engine.exp) && IsScore(score, engine, text, encoded)
    requires (Hits(7, text) || Hits(8, text)) && forall i :: 0 <= i < 7 ==> !Hits(i, text)
    ensures score == 0.95
  {
  }

  // ---- Which texts block in every embedding ----------------------------------------------------

  /** Every request that contains the text is blocked, whatever is around it and whatever the model says. */
  ghost predicate BlocksEverywhere(engine: Engine, text: string)
    requires IsExp(engine.exp)
  {
    forall before: string, after: string, encoded: Bytes, score: real ::
      IsScore(score, engine, before + text + after, encoded) ==> score > 0.95
  }

  /** Text in front of a pattern's absence adds no occurrence when the pattern cannot start in it. */
  lemma NotOccursBehind(pattern: string, before: string, text: string)
    requires pattern != [] && pattern[0] !in before && !Occurs(pattern, text)
    ensures !Occurs(pattern, before + text)
  {
    var whole := before + text;
    forall at | 0 <= at <= |whole| - |pattern| ensures !OccursAt(pattern, whole, at) {
      if at < |before| {
        assert whole[at..at + |pattern|][0] == before[at];
      } else {
        assert whole[at..at + |pattern|] == text[at - |before|..at - |before| + |pattern|];
        assert !OccursAt(pattern, text, at - |before|);
      }
    }
  }

  /** None of the first seven signatures starts with a letter of "wget ". */
  lemma FirstSevenStartElsewhere(i: nat)
    requires i < 7
    ensures HIGH_RISK_SIGS[i].0 != [] && HIGH_RISK_SIGS[i].0[0] !in "wget "
  {
  }

  /** "wget " in front of a text without the first seven: the first hit is wget itself. */
  lemma WgetInFront(text: string)
    requires forall i :: 0 <= i < 7 ==> !Hits(i, text)
    ensures Hits(7, "wget " + text) && forall i :: 0 <= i < 7 ==> !Hits(i, "wget " + text)
  {
    var whole := "wget " + text;
    LowerAppend("wget ", text);
    assert Lower("wget ") == "wget ";
    assert Lower(whole)[0..5] == "wget ";
    assert OccursAt("wget ", Lower(whole), 0);
    forall i | 0 <= i < 7 ensures !Hits(i, whole) {
      FirstSevenStartElsewhere(i);
      assert !Hits(i, text);
      NotOccursBehind(HIGH_RISK_SIGS[i].0, "wget ", Lower(text));
    }
  }

  /** A text blocks in every embedding exactly when it contains one of the first seven signatures. */
  lemma BlocksEverywhereExactly(engine: Engine, text: string)
    requires IsExp(engine.exp)
    ensures BlocksEverywhere(engine, text) <==> exists i :: 0 <= i < 7 && Hits(i, text)
  {
    if exists i :: 0 <= i < 7 && Hits(i, text) {
      var i: nat :| i < 7 && Hits(i, text);
      forall before: string, after: string, encoded: Bytes, score: real
        | IsScore(score, engine, before + text + after, encoded)
        ensures score > 0.95
      {
        FirstSevenBlockEverywhere(i, before, text, after, score, engine, encoded);
      }
    } else {
      WgetInFront(text);
      assert "wget " + text + "" == "wget " + text;
      assert IsScore(0.95, engine, "wget " + text + "", []);
    }
  }

  lemma MissingChar(pattern: string, k: nat, text: string)
    requires k < |pattern| && pattern[k] !in text
    ensures !Occurs(pattern, text)
  {
    forall at | 0 <= at <= |text| - |pattern| ensures !OccursAt(pattern, text, at) {
      assert text[at..at + |pattern|][k] == text[at + k];
    }
  }

  lemma PlainBase64()
    ensures Hits(9, "base64 -d") && forall i :: 0 <= i < 9 ==> !Hits(i, "base64 -d")
  {
    var t := "base64 -d";
    assert Lower(t) == t;
    assert t[0..9] == t;
    assert OccursAt("base64 -d", t, 0);
    forall i | 0 <= i < 9 ensures !Hits(i, t) {
      BeforeBase64(i);
    }
  }

  /** Each earlier signature has a letter that "base64 -d" lacks. */
  lemma BeforeBase64(i: nat)
    requires i < 9
    ensures !Occurs(HIGH_RISK_SIGS[i].0, "base64 -d")
  {
    MissingChar(HIGH_RISK_SIGS[i].0, if i == 0 then 3 else 0, "base64 -d");
  }

  /** The witness: a blocked text that is let through with "wget " in front. */
  lemma EmbeddingCanUnblock(engine: Engine, encoded: Bytes, score: real, encoded': Bytes, score': real)
    requires IsExp(engine.exp)
    requires IsScore(score, engine, "base64 -d", encoded)
    requires IsScore(score', engine, "wget " + "base64 -d", encoded')
    ensures score > 0.95 && score' <= 0.95
  {
    PlainBase64();
    WgetInFront("base64 -d");
    BlocksExactly(score, engine, "base64 -d", encoded);
    WgetShadowsTheModel("wget " + "base64 -d", score', engine, encoded');
  }
}
