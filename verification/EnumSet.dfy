/** The bitset of ICU's EnumSet, over at most 32 members, as a mathematical set. */
module EnumSets {
  /** Bit `n` alone. */
  function Bit(n: nat): bv32
    requires n < 32
  {
    1 << n
  }

  predicate Test(bits: bv32, x: bv32) {
    bits & x != 0
  }

  /** The assignment of `EnumSet::set`, for the flag `x`. */
  function Put(bits: bv32, x: bv32, v: int): bv32 {
    (bits & !x) | if v != 0 then x else 0
  }

  /** Bit `n` of the pattern, the lowest being bit 0, is 1. */
  predicate IsSet(bits: bv32, n: nat)
    requires n < 32
  {
    (bits >> n) & 1 == 1
  }

  lemma FlagIsBit(bits: bv32, n: nat)
    requires n < 32
    ensures Test(bits, Bit(n)) <==> IsSet(bits, n)
  {
  }

  lemma BitsAreDisjoint(n: nat, k: nat)
    requires n < 32 && k < 32
    ensures Bit(n) != 0 && (n != k ==> Bit(n) & Bit(k) == 0)
  {
  }

  /** Putting one flag gives it the new value and leaves every other flag. */
  lemma PutChangesOne(bits: bv32, n: nat, x: bv32, v: int, k: nat, y: bv32)
    requires n < 32 && k < 32 && x == Bit(n) && y == Bit(k)
    ensures Test(Put(bits, x, v), y) <==> if k == n then v != 0 else Test(bits, y)
  {
    BitsAreDisjoint(n, k);
    if k == n { OwnFlag(bits, x, v); } else { OtherFlag(bits, x, v, y); }
  }

  lemma OwnFlag(bits: bv32, x: bv32, v: int)
    requires x != 0
    ensures Test(Put(bits, x, v), x) <==> v != 0
  {
  }

  lemma OtherFlag(bits: bv32, x: bv32, v: int, y: bv32)
    requires x & y == 0
    ensures Test(Put(bits, x, v), y) <==> Test(bits, y)
  {
  }

  class EnumSet {
    const minValue: int
    const limitValue: int
    var fBools: bv32

    /** There are at most 32 members, and no bits but theirs are ever set. */
    ghost predicate Valid()
      reads this
    {
      limitValue - minValue <= 32 &&
      forall n: nat :: limitValue - minValue <= n < 32 ==> !Test(fBools, Bit(n))
    }

    predicate IsValidEnum(t: int) {
      minValue <= t < limitValue
    }

    predicate HasFlag(t: int)
      requires Valid() && IsValidEnum(t)
      reads this
    {
      Test(fBools, Bit(t - minValue))
    }

    ghost function Members(): set<int>
      requires Valid()
      reads this
    {
      set t | minValue <= t < limitValue && HasFlag(t)
    }

    constructor (minValue: int, limitValue: int)
      requires limitValue - minValue <= 32
      ensures this.minValue == minValue && this.limitValue == limitValue
      ensures Valid() && Members() == {}
    {
      this.minValue, this.limitValue := minValue, limitValue;
      fBools := 0;
      new;
      forall n: nat | n < 32 ensures !Test(0, Bit(n)) {
        var x := Bit(n);
        assert 0 & x == 0;
      }
    }

    method Clear()
      requires Valid()
      modifies this
      ensures Valid() && Members() == {}
    {
      fBools := 0;
      forall n: nat | n < 32 ensures !Test(0, Bit(n)) {
        var x := Bit(n);
        assert 0 & x == 0;
      }
    }

    method Add(t: int)
      requires Valid() && IsValidEnum(t)
      modifies this
      ensures Valid() && Members() == old(Members()) + {t}
    {
      Set(t, 1);
    }

    method Remove(t: int)
      requires Valid() && IsValidEnum(t)
      modifies this
      ensures Valid() && Members() == old(Members()) - {t}
    {
      Set(t, 0);
    }

    method Set(t: int, v: int)
      requires Valid() && IsValidEnum(t)
      modifies this
      ensures Valid() && Members() == if v != 0 then old(Members()) + {t} else old(Members()) - {t}
    {
      var x := Bit(t - minValue);
      forall k: nat | k < 32
        ensures Test(Put(fBools, x, v), Bit(k)) <==> if k == t - minValue then v != 0 else Test(fBools, Bit(k))
      {
        PutChangesOne(fBools, t - minValue, x, v, k, Bit(k));
      }
      hide Test, Put;
      fBools := Put(fBools, x, v);
    }

    function Get(t: int): (r: int)
      requires Valid() && IsValidEnum(t)
      reads this
      ensures r == if t in Members() then 1 else 0
    {
      assert HasFlag(t) <==> fBools & Bit(t - minValue) != 0;
      if fBools & Bit(t - minValue) != 0 then 1 else 0
    }

    function GetAll(): (bits: bv32)
      reads this
    {
      fBools
    }

    /** Each of the 32 bits, counted from the lowest, says whether the member that far from the first is in the set. */
    lemma BitsAreMembers(n: nat)
      requires Valid() && n < 32
      ensures IsSet(GetAll(), n) <==> minValue + n in Members()
    {
      FlagIsBit(fBools, n);
      hide Test, Bit, IsSet;
    }

    function Contains(t: int): (r: int)
      requires Valid() && IsValidEnum(t)
      reads this
      ensures r == if t in Members() then 1 else 0
    {
      Get(t)
    }
  }
}
