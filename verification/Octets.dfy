/** Numbers as octets, most significant first, and the growing buffer the converters write to. */
module Octets {
  type U8 = n: nat | n < 0x100
  type U16 = n: nat | n < 0x1_0000
  type U32 = n: nat | n < 0x1_0000_0000

  function Octet(n: U8): char {
    n as char
  }

  function Octets2(n: U16): (s: string)
    ensures |s| == 2
  {
    [Octet(n / 0x100 % 0x100), Octet(n % 0x100)]
  }

  function Octets3(n: U32): (s: string)
    ensures |s| == 3
  {
    [Octet(n / 0x1_0000 % 0x100), Octet(n / 0x100 % 0x100), Octet(n % 0x100)]
  }

  function Octets4(n: U32): (s: string)
    ensures |s| == 4
  {
    [Octet(n / 0x100_0000 % 0x100), Octet(n / 0x1_0000 % 0x100), Octet(n / 0x100 % 0x100), Octet(n % 0x100)]
  }

  /** The number a string of octets spells. */
  function Number(s: string): nat {
    if s == "" then 0 else Number(s[..|s| - 1]) * 0x100 + s[|s| - 1] as int
  }

  lemma NumberOfTwo(a: char, b: char)
    ensures Number([a]) == a as int && Number([a, b]) == a as int * 0x100 + b as int
  {
    assert [a][..0] == "" && [a, b][..1] == [a];
  }

  lemma NumberOfFour(a: char, b: char, c: char, d: char)
    ensures Number([a, b, c]) == (a as int * 0x100 + b as int) * 0x100 + c as int
    ensures Number([a, b, c, d]) == ((a as int * 0x100 + b as int) * 0x100 + c as int) * 0x100 + d as int
  {
    NumberOfTwo(a, b);
    assert [a, b, c][..2] == [a, b] && [a, b, c, d][..3] == [a, b, c];
  }

  lemma Octets2RoundTrip(n: U16)
    ensures Number(Octets2(n)) == n
  {
    hide Number;
    NumberOfTwo(Octet(n / 0x100 % 0x100), Octet(n % 0x100));
  }

  lemma LowThree(n: nat)
    ensures n % 0x100_0000 == n / 0x100 % 0x1_0000 * 0x100 + n % 0x100
  {
    var q := n / 0x100;
    ModThree(q / 0x1_0000, q % 0x1_0000 * 0x100 + n % 0x100);
  }

  lemma ModThree(k: nat, rem: nat)
    requires rem < 0x100_0000
    ensures (0x100_0000 * k + rem) % 0x100_0000 == rem
  {
  }

  lemma LowTwo(n: nat)
    ensures n % 0x1_0000 == n / 0x100 % 0x100 * 0x100 + n % 0x100
  {
    var q := n / 0x100;
    ModTwo(q / 0x100, q % 0x100 * 0x100 + n % 0x100);
  }

  lemma ModTwo(k: nat, rem: nat)
    requires rem < 0x1_0000
    ensures (0x1_0000 * k + rem) % 0x1_0000 == rem
  {
  }

  lemma ShiftTwice(n: nat)
    ensures n / 0x100 / 0x100 == n / 0x1_0000
  {
  }

  lemma ShiftThrice(n: nat)
    ensures n / 0x1_0000 / 0x100 == n / 0x100_0000
  {
  }

  lemma Octets3RoundTrip(n: U32)
    ensures Number(Octets3(n)) == n % 0x100_0000
  {
    hide Number;
    NumberOfFour(Octet(n / 0x1_0000 % 0x100), Octet(n / 0x100 % 0x100), Octet(n % 0x100), Octet(0));
    LowThree(n);
    LowTwo(n / 0x100);
    ShiftTwice(n);
  }

  lemma Octets4RoundTrip(n: U32)
    ensures Number(Octets4(n)) == n
  {
    hide Number;
    NumberOfFour(Octet(n / 0x100_0000 % 0x100), Octet(n / 0x1_0000 % 0x100), Octet(n / 0x100 % 0x100), Octet(n % 0x100));
    FourBytes(n);
  }

  lemma FourBytes(n: U32)
    ensures n == ((n / 0x100_0000 % 0x100 * 0x100 + n / 0x1_0000 % 0x100) * 0x100 + n / 0x100 % 0x100) * 0x100 + n % 0x100
  {
    LowTwo(n);
    LowTwo(n / 0x1_0000);
    ShiftThrice(n);
  }

  /** A std::string a writer appends to. */
  class Buffer {
    var data: string

    constructor ()
      ensures data == ""
    {
      data := "";
    }

    method Append(s: string)
      modifies this
      ensures data == old(data) + s
    {
      data := data + s;
    }
  }
}
