/** Vocabulary shared by every component: bytes, addresses, options and substring search. */
module Common {

  type Byte = b: int | 0 <= b < 256

  type Bytes = seq<Byte>

  /** A 32-bit IPv4 address as the four bytes it occupies in memory (network order). */
  type Addr = a: Bytes | |a| == 4 witness [0, 0, 0, 0]

  type Port = p: int | 0 <= p < 65536

  datatype Option<+T> = None | Some(value: T)

  /** The concatenation of a list of packets. */
  function Flat(parts: seq<Bytes>): Bytes
  {
    if parts == [] then [] else Flat(parts[..|parts| - 1]) + parts[|parts| - 1]
  }

  lemma {:induction false} FlatAppend(a: seq<Bytes>, b: seq<Bytes>)
    ensures Flat(a + b) == Flat(a) + Flat(b)
  {
    if b == [] {
      assert a + b == a;
    } else {
      var last := |b| - 1;
      assert (a + b)[..|a + b| - 1] == a + b[..last];
      FlatAppend(a, b[..last]);
    }
  }

  lemma FlatOne(part: Bytes)
    ensures Flat([part]) == part
  {
    assert [part][..0] == [];
  }

  lemma FlatPrefix(a: seq<Bytes>, b: seq<Bytes>)
    requires a <= b
    ensures Flat(a) <= Flat(b)
  {
    FlatAppend(a, b[|a|..]);
    assert b == a + b[|a|..];
  }

  /** Bytes read as characters, one for one. */
  function Text(data: Bytes): (text: string)
    ensures |text| == |data| && forall i :: 0 <= i < |data| ==> text[i] as int == data[i]
  {
    seq(|data|, i requires 0 <= i < |data| => data[i] as char)
  }

  lemma TextSlice(data: Bytes, lo: nat, hi: nat)
    requires lo <= hi <= |data|
    ensures Text(data[lo..hi]) == Text(data)[lo..hi]
  {
  }

  predicate OccursAt(pattern: string, text: string, at: int)
  {
    0 <= at <= |text| - |pattern| && text[at..at + |pattern|] == pattern
  }

  /** `text` contains `pattern`: what std::string::find and Python's `in` decide. */
  predicate Occurs(pattern: string, text: string)
  {
    exists at :: 0 <= at <= |text| - |pattern| && OccursAt(pattern, text, at)
  }

  /** `pattern` stands in `text` with something before and something after it. */
  ghost predicate Contains(text: string, pattern: string)
  {
    exists before: string, after: string :: text == before + pattern + after
  }

  lemma OccursIffContains(pattern: string, text: string)
    ensures Occurs(pattern, text) <==> Contains(text, pattern)
  {
    if Occurs(pattern, text) {
      var at :| 0 <= at <= |text| - |pattern| && OccursAt(pattern, text, at);
      assert text == text[..at] + text[at..at + |pattern|] + text[at + |pattern|..];
    }
    if Contains(text, pattern) {
      var before, after :| text == before + pattern + after;
      assert OccursAt(pattern, text, |before|);
    }
  }

  lemma OccursInside(pattern: string, before: string, text: string, after: string)
    requires Occurs(pattern, text)
    ensures Occurs(pattern, before + text + after)
  {
    var at :| 0 <= at <= |text| - |pattern| && OccursAt(pattern, text, at);
    var whole := before + text + after;
    var there := |before| + at;
    assert whole[there..there + |pattern|] == text[at..at + |pattern|];
    assert OccursAt(pattern, whole, there);
  }

  lemma OccursInSlice(pattern: string, text: string, lo: nat, hi: nat, at: nat)
    requires lo <= at && at + |pattern| <= hi <= |text|
    requires OccursAt(pattern, text, at)
    ensures Occurs(pattern, text[lo..hi])
  {
    var inner := text[lo..hi];
    assert at - lo + |pattern| <= |inner|;
    assert text[lo..hi][at - lo..][..|pattern|] == text[at..][..|pattern|];
    assert inner[at - lo..at - lo + |pattern|] == inner[at - lo..][..|pattern|];
    assert text[at..at + |pattern|] == text[at..][..|pattern|];
    assert OccursAt(pattern, text[lo..hi], at - lo);
  }
}
