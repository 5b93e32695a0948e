/** Reversing the bits of an index through its binary representation. */
module BitReversal {
  import opened Basics
  import opened Bits

  function Digit(b: nat): char {
    if b == 0 then '0' else '1'
  }

  function ToBinary(i: nat): (s: string)
    ensures |s| > 0
  {
    if i < 2 then [Digit(i)] else ToBinary(i / 2) + [Digit(i % 2)]
  }

  function Zeros(n: nat): string {
    seq(n, _ => '0')
  }

  /** Rust's `{:0width$b}`: at least `width` digits. */
  function FormatBinary(i: nat, width: nat): string {
    var s := ToBinary(i);
    if |s| >= width then s else Zeros(width - |s|) + s
  }

  function Backwards(s: string): (r: string)
    ensures |r| == |s|
  {
    seq(|s|, i requires 0 <= i < |s| => s[|s| - 1 - i])
  }

  function ParseDigits(s: string): Option<nat> {
    if s == "" then Some(0)
    else
      var d := s[|s| - 1];
      match ParseDigits(s[..|s| - 1])
      case Some(v) => if d == '0' then Some(2 * v) else if d == '1' then Some(2 * v + 1) else None
      case None => None
  }

  /** Rust's `usize::from_str_radix(_, 2)`. */
  function ParseBinary(s: string): Option<nat> {
    if s == "" then None else ParseDigits(s)
  }

  function ReverseBits(i: nat, width: nat): Option<nat> {
    ParseBinary(Backwards(FormatBinary(i, width)))
  }

  // ----- What the strings contain -----

  /** The lowest `width` bits, highest first. */
  function DigitsOf(i: nat, width: nat): (s: string)
    ensures |s| == width
  {
    if width == 0 then "" else DigitsOf(i / 2, width - 1) + [Digit(i % 2)]
  }

  lemma {:induction false} DigitsOfZero(width: nat)
    ensures DigitsOf(0, width) == Zeros(width)
  {
    if width > 0 {
      DigitsOfZero(width - 1);
      assert Zeros(width) == Zeros(width - 1) + ['0'];
    }
  }

  lemma {:induction false} FormatIsDigits(i: nat, width: nat)
    requires width > 0 && i < Pow2(width)
    ensures FormatBinary(i, width) == DigitsOf(i, width)
  {
    if i < 2 {
      DigitsOfZero(width - 1);
    } else {
      assert width > 1;
      FormatIsDigits(i / 2, width - 1);
      assert FormatBinary(i, width) == FormatBinary(i / 2, width - 1) + [Digit(i % 2)];
    }
  }

  lemma BitAbove(x: nat, j: nat)
    requires j > 0
    ensures Bit(x, j) <==> Bit(x / 2, j - 1)
  {
    assert Pow2(1) == 2;
    DropBits(x, 1, j - 1);
  }

  lemma {:induction false} DigitAt(i: nat, width: nat, j: nat)
    requires j < width
    ensures DigitsOf(i, width)[width - 1 - j] == if Bit(i, j) then '1' else '0'
  {
    if j == 0 {
      assert Pow2(0) == 1;
    } else {
      DigitAt(i / 2, width - 1, j - 1);
      BitAbove(i, j);
    }
  }

  predicate Binary(s: string) {
    forall i :: 0 <= i < |s| ==> s[i] == '0' || s[i] == '1'
  }

  /** A string of binary digits denotes the number that has these bits. */
  lemma {:induction false} ParsedBits(s: string) returns (v: nat)
    requires Binary(s)
    ensures ParseDigits(s) == Some(v) && v < Pow2(|s|)
    ensures forall j :: 0 <= j < |s| ==> (Bit(v, j) <==> s[|s| - 1 - j] == '1')
  {
    if s == "" {
      v := 0;
    } else {
      var t := s[..|s| - 1];
      var u := ParsedBits(t);
      v := 2 * u + if s[|s| - 1] == '1' then 1 else 0;
      forall j | 0 <= j < |s|
        ensures Bit(v, j) <==> s[|s| - 1 - j] == '1'
      {
        assert Pow2(0) == 1;
        if j > 0 {
          BitAbove(v, j);
          assert t[|t| - 1 - (j - 1)] == s[|s| - 1 - j];
        }
      }
    }
  }

  /** The reversed number, which always exists, has the bits of `i` in opposite order. */
  lemma Reversal(i: nat, width: nat) returns (r: nat)
    requires i < Pow2(width)
    ensures ReverseBits(i, width) == Some(r) && r < Pow2(width)
    ensures forall j :: 0 <= j < width ==> (Bit(r, j) <==> Bit(i, width - 1 - j))
  {
    if width == 0 {
      r := 0;
      assert FormatBinary(0, 0) == "0";
      assert Backwards("0") == "0";
      assert ParseDigits("0"[..0]) == Some(0);
    } else {
      FormatIsDigits(i, width);
      var s := DigitsOf(i, width);
      forall j | 0 <= j < width
        ensures s[j] == if Bit(i, width - 1 - j) then '1' else '0'
      {
        DigitAt(i, width, width - 1 - j);
      }
      r := ParsedBits(Backwards(s));
    }
  }

  lemma ReversalExists(i: nat, width: nat)
    requires i < Pow2(width)
    ensures ReverseBits(i, width).Some? && ReverseBits(i, width).value < Pow2(width)
  {
    var _ := Reversal(i, width);
  }

  function Reversed(i: nat, width: nat): (r: nat)
    requires i < Pow2(width)
    ensures ReverseBits(i, width) == Some(r) && r < Pow2(width)
  {
    ReversalExists(i, width);
    ReverseBits(i, width).value
  }

  lemma {:induction false} BitsDetermine(x: nat, y: nat, width: nat)
    requires x < Pow2(width) && y < Pow2(width)
    requires forall j :: 0 <= j < width ==> (Bit(x, j) <==> Bit(y, j))
    ensures x == y
  {
    if width > 0 {
      assert Bit(x, 0) <==> Bit(y, 0);
      assert Pow2(0) == 1;
      forall j | 0 <= j < width - 1
        ensures Bit(x / 2, j) <==> Bit(y / 2, j)
      {
        BitAbove(x, j + 1);
        BitAbove(y, j + 1);
      }
      BitsDetermine(x / 2, y / 2, width - 1);
    }
  }

  /** Bit reversal undoes itself; so it permutes the indices. */
  lemma ReversalInvolution(i: nat, width: nat)
    requires i < Pow2(width)
    ensures Reversed(Reversed(i, width), width) == i
  {
    var r := Reversal(i, width);
    var r' := Reversal(r, width);
    forall j | 0 <= j < width
      ensures Bit(r', j) <==> Bit(i, j)
    {
      assert Bit(r', j) <==> Bit(r, width - 1 - j);
    }
    BitsDetermine(r', i, width);
  }
}
