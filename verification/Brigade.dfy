/**
 * Bucket brigades as sequences of data and end-of-stream buckets, with the two library operations
 * the filters rely on. Octets are characters.
 */
module Brigade {
  datatype Bucket = Data(bytes: string) | Eos

  function BytesOf(b: Bucket): string {
    match b case Data(s) => s case Eos => ""
  }

  function Bytes(bb: seq<Bucket>): string {
    if bb == [] then "" else Bytes(bb[..|bb| - 1]) + BytesOf(bb[|bb| - 1])
  }

  lemma {:induction false} BytesConcat(a: seq<Bucket>, b: seq<Bucket>)
    ensures Bytes(a + b) == Bytes(a) + Bytes(b)
  {
    if b == [] {
      assert a + b == a;
    } else {
      assert (a + b)[..|a + b| - 1] == a + b[..|b| - 1];
      BytesConcat(a, b[..|b| - 1]);
    }
  }

  lemma BytesSmall(d: string)
    ensures Bytes([]) == "" && Bytes([Eos]) == "" && Bytes([Data(d)]) == d && Bytes([Data(d), Eos]) == d
  {
    assert [Eos][..0] == [] && [Data(d)][..0] == [] && [Data(d), Eos][..1] == [Data(d)];
    assert "" + d == d && d + "" == d;
  }

  /** The place of the first line feed, or the length if there is none. */
  function FindLf(s: string): (p: nat)
    ensures p <= |s| && (p < |s| ==> s[p] == '\n') && forall i :: 0 <= i < p ==> s[i] != '\n'
  {
    if s == "" then 0 else if s[0] == '\n' then 0 else 1 + FindLf(s[1..])
  }

  /** A copied bucket, unless it is empty. */
  function Kept(s: string): seq<Bucket> {
    if s == "" then [] else [Data(s)]
  }

  datatype Cut = Cut(moved: seq<Bucket>, rest: seq<Bucket>)

  /**
   * apr_brigade_split_line: buckets move until one holds a line feed, which is split just after
   * it (leaving a possibly empty bucket), or until `limit` octets have moved.
   */
  function SplitLine(bb: seq<Bucket>, limit: nat, soFar: nat): Cut {
    if bb == [] then Cut([], []) else
    var s := BytesOf(bb[0]);
    var p := FindLf(s);
    if p < |s| then Cut([Data(s[..p + 1])], [Data(s[p + 1..])] + bb[1..]) else
    var first := if bb[0].Eos? then [Eos] else Kept(s);
    if soFar + |s| >= limit then Cut(first, bb[1..]) else
    var c := SplitLine(bb[1..], limit, soFar + |s|);
    Cut(first + c.moved, c.rest)
  }

  datatype Partitioned = Partitioned(complete: bool, bb: seq<Bucket>, at: nat)

  /**
   * apr_brigade_partition: the brigade, split at `point` octets if need be, and the number of
   * buckets before the split; incomplete, and every bucket, if there are fewer octets.
   */
  function Partition(bb: seq<Bucket>, point: nat): (r: Partitioned)
    requires point > 0
    ensures r.at <= |r.bb| && (!r.complete ==> r.bb == bb && r.at == |bb|)
  {
    if bb == [] then Partitioned(false, [], 0) else
    var s := BytesOf(bb[0]);
    if point < |s| then Partitioned(true, [Data(s[..point]), Data(s[point..])] + bb[1..], 1)
    else if point == |s| then Partitioned(true, bb, 1)
    else
      var r := Partition(bb[1..], point - |s|);
      Partitioned(r.complete, [bb[0]] + r.bb, r.at + 1)
  }
}
