/** The segments into which a DMA mapper cuts a range of memory. */
module DmaSegments {
  datatype Segment = Segment(address: nat, length: nat)

  function Total(segments: seq<Segment>): nat {
    if segments == [] then 0 else segments[0].length + Total(segments[1..])
  }

  lemma {:induction false} TotalAppend(a: seq<Segment>, b: seq<Segment>)
    ensures Total(a + b) == Total(a) + Total(b)
  {
    if a == [] {
      assert a + b == b;
    } else {
      assert (a + b)[1..] == a[1..] + b;
      TotalAppend(a[1..], b);
    }
  }

  lemma TotalPush(a: seq<Segment>, s: Segment)
    ensures Total(a + [s]) == Total(a) + s.length
  {
    TotalAppend(a, [s]);
  }

  lemma PrefixTotal(a: seq<Segment>, b: seq<Segment>)
    requires a <= b
    ensures Total(a) <= Total(b)
  {
    assert b == a + b[|a|..];
    TotalAppend(a, b[|a|..]);
  }
}
