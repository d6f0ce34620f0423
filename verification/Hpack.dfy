/**
 * Header blocks: the writer's literal fields with one-octet lengths, and a decoder after sections
 * 5.1, 5.2 and 6.2.2 of RFC 7541 for literal fields without indexing and with a new name.
 */
module Hpack {
  import opened Common
  import opened Octets
  import opened Http1

  // ---- The writer ----

  /** `(uint8_t)(s.size() & 0x7f)`, then the string. */
  function StringText(s: string): string {
    [Octet(|s| % 0x80)] + s
  }

  function FieldText(h: Header): string {
    [Octet(0)] + StringText(h.name) + StringText(h.value)
  }

  function BlockText(hs: seq<Header>): string {
    if hs == [] then "" else BlockText(hs[..|hs| - 1]) + FieldText(hs[|hs| - 1])
  }

  method WriteHpackHeaders(out: Buffer, headers: seq<Header>)
    modifies out
    ensures out.data == old(out.data) + BlockText(Named(headers))
  {
    for i := 0 to |headers|
      invariant out.data == old(out.data) + BlockText(Named(headers[..i]))
    {
      assert headers[..i + 1][..i] == headers[..i];
      var hdr := headers[i];
      if hdr.name == "" {
        continue;
      }
      BlockSnoc(old(out.data), Named(headers[..i]), hdr);
      out.Append([Octet(0)]);
      out.Append([Octet(|hdr.name| % 0x80)]);
      out.Append(hdr.name);
      out.Append([Octet(|hdr.value| % 0x80)]);
      out.Append(hdr.value);
    }
    assert headers[..|headers|] == headers;
  }

  lemma BlockSnoc(before: string, hs: seq<Header>, h: Header)
    ensures before + BlockText(hs + [h]) ==
            before + BlockText(hs) + [Octet(0)] + [Octet(|h.name| % 0x80)] + h.name + [Octet(|h.value| % 0x80)] + h.value
  {
    assert (hs + [h])[..|hs|] == hs;
  }

  // ---- The decoder ----

  /** Section 5.1: the octets after a prefix of all ones, least significant seven bits first. */
  function DecodeMore(s: string, sum: nat, unit: nat): (r: Option<(nat, string)>)
    ensures r.Some? ==> |r.value.1| < |s| && r.value.0 >= sum
  {
    if s == "" then None else
    var b := s[0] as int;
    if b >= 0x80 then DecodeMore(s[1..], sum + b % 0x80 * unit, unit * 0x80) else Some((sum + b * unit, s[1..]))
  }

  /** Section 5.1 with a seven-bit prefix: up to 126 in one octet, more in several. */
  function DecodeInteger(s: string): (r: Option<(nat, string)>)
    ensures r.Some? ==> |r.value.1| + (if r.value.0 < 0x7f then 1 else 2) <= |s|
  {
    if s == "" then None else
    var b := s[0] as int % 0x80;
    if b < 0x7f then Some((b, s[1..])) else DecodeMore(s[1..], 0x7f, 1)
  }

  /** Section 5.2, for strings that are not Huffman coded. */
  function DecodeString(s: string): (r: Option<(string, string)>)
    ensures r.Some? ==> |r.value.1| + |r.value.0| + (if |r.value.0| < 0x7f then 1 else 2) <= |s|
  {
    if s == "" || s[0] as int >= 0x80 then None else
    match DecodeInteger(s)
    case None => None
    case Some((n, rest)) => if n > |rest| then None else Some((rest[..n], rest[n..]))
  }

  /** Section 6.2.2 with a new name. */
  function DecodeField(s: string): (r: Option<(Header, string)>)
    ensures r.Some? ==> |r.value.1| + Least(r.value.0) <= |s|
  {
    if s == "" || s[0] != Octet(0) then None else
    match DecodeString(s[1..])
    case None => None
    case Some((name, rest)) =>
      match DecodeString(rest)
      case None => None
      case Some((value, after)) => Some((Header(name, value), after))
  }

  /** The fewest octets any encoding the decoder accepts needs for a field. */
  function Least(h: Header): nat {
    1 + |h.name| + (if |h.name| < 0x7f then 1 else 2) + |h.value| + (if |h.value| < 0x7f then 1 else 2)
  }

  function DecodeBlock(s: string): (r: Option<seq<Header>>)
    ensures r.Some? ==> LeastAll(r.value) <= |s|
    decreases |s|
  {
    if s == "" then Some([]) else
    match DecodeField(s)
    case None => None
    case Some((h, rest)) =>
      match DecodeBlock(rest)
      case None => None
      case Some(hs) =>
        LeastAllFront(h, hs);
        Some([h] + hs)
  }

  function LeastAll(hs: seq<Header>): nat {
    if hs == [] then 0 else LeastAll(hs[..|hs| - 1]) + Least(hs[|hs| - 1])
  }

  lemma {:induction false} LeastAllFront(h: Header, hs: seq<Header>)
    ensures LeastAll([h] + hs) == Least(h) + LeastAll(hs)
  {
    if hs == [] {
      assert [h] + hs == [h] && [h][..0] == [];
    } else {
      assert ([h] + hs)[..|hs|] == [h] + hs[..|hs| - 1];
      LeastAllFront(h, hs[..|hs| - 1]);
    }
  }

  // ---- The round trip, and exactly when it works ----

  predicate Short(h: Header) {
    |h.name| <= 126 && |h.value| <= 126
  }

  /** A longer string reads as a start of it: its length is cut to seven bits. */
  lemma StringReadsCut(s: string, rest: string)
    requires |s| % 0x80 != 0x7f
    ensures var n := |s| % 0x80; DecodeString(StringText(s) + rest) == Some((s[..n], s[n..] + rest))
  {
    var n := |s| % 0x80;
    var t := StringText(s) + rest;
    assert t[1..] == s + rest && t[0] == Octet(n);
    assert (s + rest)[..n] == s[..n] && (s + rest)[n..] == s[n..] + rest;
  }

  lemma StringRoundTrip(s: string, rest: string)
    requires |s| <= 126
    ensures DecodeString(StringText(s) + rest) == Some((s, rest))
  {
    hide DecodeString, StringText;
    StringReadsCut(s, rest);
    assert s[..|s|] == s && s[|s|..] + rest == rest;
  }

  lemma FieldRoundTrip(h: Header, rest: string)
    requires Short(h)
    ensures DecodeField(FieldText(h) + rest) == Some((h, rest))
  {
    hide DecodeString, StringText;
    var t := FieldText(h) + rest;
    assert t[1..] == StringText(h.name) + (StringText(h.value) + rest) && t[0] == Octet(0);
    StringRoundTrip(h.name, StringText(h.value) + rest);
    StringRoundTrip(h.value, rest);
  }

  lemma {:induction false} BlockFront(h: Header, hs: seq<Header>)
    ensures BlockText([h] + hs) == FieldText(h) + BlockText(hs)
  {
    hide FieldText;
    if hs == [] {
      assert [h] + hs == [h] && [h][..0] == [];
    } else {
      assert ([h] + hs)[..|hs|] == [h] + hs[..|hs| - 1];
      BlockFront(h, hs[..|hs| - 1]);
    }
  }

  lemma {:induction false} ShortBlockDecodes(hs: seq<Header>)
    requires forall h :: h in hs ==> Short(h)
    ensures DecodeBlock(BlockText(hs)) == Some(hs)
  {
    hide DecodeField, FieldText, Short;
    if hs != [] {
      var h, tail := hs[0], hs[1..];
      assert hs == [h] + tail && h in hs;
      BlockFront(h, tail);
      FieldRoundTrip(h, BlockText(tail));
      ShortBlockDecodes(tail);
      FieldTextSize(h);
    }
  }

  lemma FieldTextSize(h: Header)
    ensures |FieldText(h)| == 3 + |h.name| + |h.value|
  {
  }

  /** A block is as long as one-octet lengths make it; long strings would need more than that. */
  lemma {:induction false} BlockSize(hs: seq<Header>)
    ensures LeastAll(hs) >= |BlockText(hs)|
    ensures LeastAll(hs) == |BlockText(hs)| ==> forall h :: h in hs ==> Short(h)
  {
    hide FieldText;
    if hs != [] {
      BlockSize(hs[..|hs| - 1]);
      FieldTextSize(hs[|hs| - 1]);
      SplitLast(hs);
    }
  }

  /** A written block decodes to its fields exactly if every name and value has at most 126 octets. */
  lemma BlockDecodesIff(hs: seq<Header>)
    ensures DecodeBlock(BlockText(hs)) == Some(hs) <==> forall h :: h in hs ==> Short(h)
  {
    hide DecodeBlock, BlockText;
    BlockSize(hs);
    if forall h :: h in hs ==> Short(h) {
      ShortBlockDecodes(hs);
    }
  }
}
