/** Recognising powers of two. */
module PowerOfTwo {
  import opened Words

  predicate IsPOT(number: int)
    decreases Magnitude(number)
  {
    number != 0 && if number % 2 == 0 then IsPOT(number / 2) else number == 1
  }

  function ShiftFromPOT(number: int): (shift: nat)
    ensures shift <= Magnitude(number)
    decreases Magnitude(number)
  {
    if number == 0 || number % 2 != 0 then 0 else 1 + ShiftFromPOT(number / 2)
  }

  lemma {:induction false} ShiftOfPower(n: nat)
    ensures IsPOT(Pow2(n)) && ShiftFromPOT(Pow2(n)) == n
  {
    if n > 0 {
      ShiftOfPower(n - 1);
    }
  }

  lemma {:induction false} PowerOfShift(number: int)
    ensures IsPOT(number) ==> number == Pow2(ShiftFromPOT(number))
    decreases Magnitude(number)
  {
    if number != 0 && number % 2 == 0 {
      PowerOfShift(number / 2);
    }
  }

  /** The recogniser accepts exactly the powers of two, negative numbers never, and the shift is
      then the exponent. */
  lemma IsPOTExact(number: int)
    ensures IsPOT(number) <==> exists n: nat :: number == Pow2(n)
    ensures IsPOT(number) ==> number == Pow2(ShiftFromPOT(number))
  {
    PowerOfShift(number);
    forall n: nat | number == Pow2(n)
      ensures IsPOT(number)
    {
      ShiftOfPower(n);
    }
  }

  method ComputeIsPOT(number: int) returns (b: bool)
    ensures b <==> exists n: nat :: number == Pow2(n)
  {
    IsPOTExact(number);
    if number == 0 {
      return false;
    }
    var n := number;
    while n % 2 == 0
      invariant n != 0 && (IsPOT(n) <==> IsPOT(number))
      decreases Magnitude(n)
    {
      n := n / 2;
    }
    b := n == 1;
  }

  method ComputeShiftFromPOT(number: int) returns (shift: nat)
    ensures shift == ShiftFromPOT(number)
    ensures forall n: nat :: number == Pow2(n) ==> shift == n
  {
    shift := 0;
    forall n: nat | number == Pow2(n)
      ensures ShiftFromPOT(number) == n
    {
      ShiftOfPower(n);
    }
    if number == 0 {
      return;
    }
    var n := number;
    while n % 2 == 0
      invariant n != 0 && shift + ShiftFromPOT(n) == ShiftFromPOT(number)
      decreases Magnitude(n)
    {
      n := n / 2;
      shift := shift + 1;
    }
  }
}
