/** The library routines: decimal output and overlapping moves. */
module Lib {
  import opened Words

  function Digit(d: nat): char
    requires d < 10
  {
    '0' + d as char
  }

  // ---- itoa ------------------------------------------------------------------------------------

  /** The number in decimal, most significant digit first. */
  function Decimal(n: nat): (s: string)
    ensures s != []
  {
    if n < 10 then [Digit(n)] else Decimal(n / 10) + [Digit(n % 10)]
  }

  /** The digits in the order in which the first loop finds them; none for 0. */
  function Backwards(n: nat): string
  {
    if n == 0 then [] else [Digit(n % 10)] + Backwards(n / 10)
  }

  /** Reading decimal digits. */
  function Value(s: string): int
  {
    if s == [] then 0 else Value(s[..|s| - 1]) * 10 + (s[|s| - 1] as int - '0' as int)
  }

  function Reverse(s: string): string
  {
    if s == [] then [] else Reverse(s[1..]) + [s[0]]
  }

  lemma {:induction false} ReverseAt(s: string, k: nat)
    requires k < |s|
    ensures |Reverse(s)| == |s| && Reverse(s)[k] == s[|s| - 1 - k]
  {
    if |s| > 1 {
      ReverseAt(s[1..], if k < |s| - 1 then k else 0);
    }
  }

  lemma {:induction false} ReverseBackwards(n: nat)
    requires 0 < n
    ensures Reverse(Backwards(n)) == Decimal(n)
  {
    var b := Backwards(n);
    assert b[1..] == Backwards(n / 10);
    if n < 10 {
      assert Reverse(b) == Reverse(b[1..]) + [b[0]] == [Digit(n)];
    } else {
      ReverseBackwards(n / 10);
    }
  }

  /** The output parses back to the number. */
  lemma {:induction false} DecimalParses(n: nat)
    ensures Value(Decimal(n)) == n
  {
    if n < 10 {
      assert Decimal(n)[..0] == [];
    } else {
      DecimalParses(n / 10);
      assert Decimal(n)[..|Decimal(n)| - 1] == Decimal(n / 10);
    }
  }

  /** Digits only, and no leading zero except in "0". */
  lemma {:induction false} DecimalCanonical(n: nat)
    ensures forall k :: 0 <= k < |Decimal(n)| ==> '0' <= Decimal(n)[k] <= '9'
    ensures Decimal(n)[0] == '0' ==> n == 0
  {
    if 10 <= n {
      DecimalCanonical(n / 10);
    }
  }

  /** d digits suffice exactly for the numbers below 10 to the d; 10 for 32 bits. */
  lemma {:induction false} DecimalLength(n: nat, d: nat)
    requires 0 < d
    ensures |Decimal(n)| <= d <==> n < Pow10(d)
    decreases d
  {
    if n < 10 {
      Pow10Positive(d - 1);
    } else if d == 1 {
      assert Pow10(1) == 10;
    } else {
      DecimalLength(n / 10, d - 1);
      assert n / 10 < Pow10(d - 1) <==> n < 10 * Pow10(d - 1);
    }
  }

  lemma {:induction false} Pow10Positive(d: nat)
    ensures 1 <= Pow10(d)
  {
    if d > 0 {
      Pow10Positive(d - 1);
    }
  }

  function Pow10(d: nat): nat { if d == 0 then 1 else 10 * Pow10(d - 1) }

  lemma DecimalOf32Bits(n: u32)
    ensures |Decimal(n)| <= 10
  {
    assert Pow10(10) == 10_000_000_000;
    DecimalLength(n, 10);
  }

  /** Writes the digits backwards, ends the string, and reverses it in place. */
  method Itoa(n: u32, str: array<char>)
    requires |Decimal(n)| < str.Length
    modifies str
    ensures str[..|Decimal(n)|] == Decimal(n)
    ensures str[|Decimal(n)|] == '\0'
    ensures forall k :: |Decimal(n)| < k < str.Length ==> str[k] == old(str[k])
  {
    var i := WriteBackwards(n, str);
    str[i] := '\0';
    ReverseInPlace(str, i);
  }

  method WriteBackwards(n: u32, str: array<char>) returns (i: nat)
    requires |Decimal(n)| < str.Length
    modifies str
    ensures i == |Decimal(n)| && i < str.Length && Reverse(str[..i]) == Decimal(n)
    ensures forall k :: i < k < str.Length ==> str[k] == old(str[k])
  {
    i := 0;
    if n == 0 {
      str[i] := '0';
      i := i + 1;
      assert str[..1] == ['0'] && Reverse(['0']) == ['0'];
    } else {
      ReverseBackwards(n);
      LengthBackwards(n);
      ghost var all := Backwards(n);
      var m: nat := n;
      while 0 < m
        invariant i <= |all| < str.Length && str[..i] == all[..i] && all[i..] == Backwards(m)
        invariant forall k :: i <= k < str.Length ==> str[k] == old(str[k])
        decreases m
      {
        assert all[i] == all[i..][0] == Digit(m % 10) && all[i + 1..] == all[i..][1..];
        str[i] := (m % 10) as char + '0';
        i := i + 1;
        m := m / 10;
      }
      assert str[..i] == all;
    }
  }

  lemma LengthBackwards(n: nat)
    requires 0 < n
    ensures |Backwards(n)| == |Decimal(n)|
  {
    ReverseBackwards(n);
    ReverseAt(Backwards(n), 0);
  }

  method ReverseInPlace(str: array<char>, i: nat)
    requires i <= str.Length
    modifies str
    ensures str[..i] == Reverse(old(str[..i]))
    ensures forall k :: i <= k < str.Length ==> str[k] == old(str[k])
  {
    for j := 0 to i / 2
      invariant forall k :: 0 <= k < j ==> str[k] == old(str[i - 1 - k]) && str[i - 1 - k] == old(str[k])
      invariant forall k :: j <= k < i - j ==> str[k] == old(str[k])
      invariant forall k :: i <= k < str.Length ==> str[k] == old(str[k])
    {
      var temp := str[j];
      str[j] := str[i - j - 1];
      str[i - j - 1] := temp;
    }
    ghost var was := old(str[..i]);
    if i == 0 {
      assert was == [];
    } else {
      ReverseAt(was, 0);
    }
    forall k | 0 <= k < i
      ensures |Reverse(was)| == i && str[k] == Reverse(was)[k]
    {
      ReverseAt(was, k);
    }
  }

  // ---- memmove -------------------------------------------------------------------------------------

  /** Moves n bytes; the ranges may overlap either way. */
  method Memmove(mem: array<u8>, dest: nat, src: nat, n: nat)
    requires dest + n <= mem.Length && src + n <= mem.Length
    modifies mem
    ensures mem[dest..dest + n] == old(mem[src..src + n])
    ensures forall k :: 0 <= k < mem.Length && !(dest <= k < dest + n) ==> mem[k] == old(mem[k])
  {
    if src > dest {
      MoveUp(mem, dest, src, n);
    } else if src < dest {
      MoveDown(mem, dest, src, n);
    }
  }

  /** From the first byte to the last, for a destination below the source. */
  method MoveUp(mem: array<u8>, dest: nat, src: nat, n: nat)
    requires dest < src && src + n <= mem.Length
    modifies mem
    ensures forall k :: 0 <= k < mem.Length ==>
      mem[k] == if dest <= k < dest + n then old(mem[k - dest + src]) else old(mem[k])
  {
    for i := 0 to n
      invariant forall k :: 0 <= k < mem.Length ==>
        mem[k] == if dest <= k < dest + i then old(mem[k - dest + src]) else old(mem[k])
    {
      mem[dest + i] := mem[src + i];
    }
  }

  /** From the last byte to the first, for a destination above the source. */
  method MoveDown(mem: array<u8>, dest: nat, src: nat, n: nat)
    requires src < dest && dest + n <= mem.Length
    modifies mem
    ensures forall k :: 0 <= k < mem.Length ==>
      mem[k] == if dest <= k < dest + n then old(mem[k - dest + src]) else old(mem[k])
  {
    for i := n downto 0
      invariant forall k :: 0 <= k < mem.Length ==>
        mem[k] == if dest + i <= k < dest + n then old(mem[k - dest + src]) else old(mem[k])
    {
      mem[dest + i] := mem[src + i];
    }
  }
}
