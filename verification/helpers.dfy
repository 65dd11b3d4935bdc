/** A model of the file-size humaniser of the pdfjoin application.

    A byte count is divided by 1024 once for every binary prefix passed over,
    stopping at the first prefix of `"", "K", "M", "G", "T", "P", "E", "Z"`
    whose scaled value lies below 1024; when all eight are used up the
    overflow unit `"Yi"` is reported. The text is the rendered value, one
    space, the unit and the suffix (by default `"B"`).

    Division by a power of two is exact, so the scaled value is a `real`.
    Rendering a number as text (one decimal place) is not modelled: it is a
    parameter `show` of the operations that produce text.
 */
module Helpers {

  /** The divisor applied once per prefix passed over. */
  const Base: nat := 1024

  /** The prefixes tried in order, without an `i`. */
  const Prefixes: seq<string> := ["", "K", "M", "G", "T", "P", "E", "Z"]

  /** The unit reported once every prefix is used up; unlike the others it carries an `i`. */
  const OverflowUnit: string := "Yi"

  /** The suffix appended when the caller names none. */
  const DefaultSuffix: string := "B"

  /** Index of the overflow unit: one past the last prefix. */
  const Overflow: nat := 8

  /** 1024 raised to the power `k`. */
  function Pow(k: nat): (p: nat)
    ensures p >= 1
  {
    if k == 0 then 1 else Base * Pow(k - 1)
  }

  /** The size after `k` divisions by 1024, computed exactly. */
  function Scaled(size: int, k: nat): real
  {
    size as real / Pow(k) as real
  }

  /** The unit with index `k` in `"", K, M, G, T, P, E, Z, Yi`: only index 0
      is unprefixed, and only the overflow index gets `Yi`. */
  function UnitName(k: nat): (u: string)
    requires k <= Overflow
    ensures u == "" <==> k == 0
    ensures u == OverflowUnit <==> k == Overflow
  {
    if k < |Prefixes| then Prefixes[k] else OverflowUnit
  }

  /** The prefix search started at index `j`: the first index from `j` on
      whose scaled value is below 1024, or the overflow index. */
  function SearchFrom(size: int, j: nat): (k: nat)
    requires j <= Overflow
    ensures j <= k <= Overflow
    ensures forall i | j <= i < k :: Scaled(size, i) >= Base as real
    ensures k < Overflow ==> Scaled(size, k) < Base as real
    decreases Overflow - j
  {
    if j == Overflow || Scaled(size, j) < Base as real then j
    else SearchFrom(size, j + 1)
  }

  /** What the humaniser reports before rendering: the scaled value and the
      index of its unit. */
  datatype Reading = Reading(value: real, index: nat)
  {
    /** The unit text of this reading. */
    function Unit(): string
      requires index <= Overflow
    {
      UnitName(index)
    }
  }

  /** The reading of a size: the prefix index is the least index whose scaled
      value is below 1024 (capped at the overflow index), and the value is the
      size divided by 1024 once per prefix passed over. */
  function Humanise(size: int): (r: Reading)
    ensures r.index <= Overflow
    ensures r.value == Scaled(size, r.index)
    ensures forall i | 0 <= i < r.index :: Scaled(size, i) >= Base as real
    ensures r.index < Overflow ==> r.value < Base as real
  {
    var k := SearchFrom(size, 0);
    Reading(Scaled(size, k), k)
  }

  /** The displayed text: the rendered value, one space, the unit, the suffix,
      for the one index that satisfies the closed-form bracket of powers of 1024. */
  function Format(size: int, show: real -> string, suffix: string := DefaultSuffix): (text: string)
    ensures exists k: nat :: IsPrefixIndex(size, k)
    ensures forall k: nat | IsPrefixIndex(size, k) ::
      text == show(Scaled(size, k)) + " " + UnitName(k) + suffix
  {
    PrefixIndexCharacterised(size, Humanise(size).index);
    ChosenIndexUnique(size);
    var r := Humanise(size);
    show(r.value) + " " + r.Unit() + suffix
  }

  /** One more division by 1024 is one more step in the power. */
  lemma ScaledStep(size: int, k: nat)
    ensures Scaled(size, k) / Base as real == Scaled(size, k + 1)
  {
    // The step the solver needs: the next power is this one times 1024.
    assert Pow(k + 1) as real == Pow(k) as real * Base as real;
  }

  /** The loop of the source, written as it runs: one division per prefix
      passed over, a `break` at the first value below 1024, and the overflow
      unit when the loop runs to completion. */
  method FileSizeFormat(size: int, show: real -> string, suffix: string := DefaultSuffix)
    returns (text: string)
    ensures text == Format(size, show, suffix)
  {
    var value := size as real;
    var unit := "";
    var j: nat := 0;
    var broke := false;
    while j < |Prefixes|
      invariant j <= Overflow
      invariant value == Scaled(size, j)
      invariant SearchFrom(size, j) == SearchFrom(size, 0)
    {
      unit := Prefixes[j];
      if value < Base as real {
        broke := true;
        break;
      }
      ScaledStep(size, j);
      value := value / Base as real;
      j := j + 1;
    }
    if !broke {
      unit := OverflowUnit;
    }
    text := show(value) + " " + unit + suffix;
  }

  /** The closed form of the prefix choice over whole numbers:
      1024^k <= size when k >= 1, and size < 1024^(k+1) below the overflow. */
  ghost predicate IsPrefixIndex(size: int, k: nat)
  {
    k <= Overflow
    && (k >= 1 ==> Pow(k) <= size)
    && (k < Overflow ==> size < Pow(k + 1))
  }

  /** Powers of 1024 grow strictly. */
  lemma {:induction false} PowIncreasing(i: nat, j: nat)
    requires i < j
    ensures Pow(i) < Pow(j)
    decreases j
  {
    if i + 1 < j {
      PowIncreasing(i, j - 1);
    }
  }

  /** The scaled value is below 1024 exactly when the size is below the next power. */
  lemma ScaledBelowBase(size: int, k: nat)
    ensures Scaled(size, k) < Base as real <==> size < Pow(k + 1)
  {
    var p := Pow(k) as real;
    assert Pow(k + 1) as real == Base as real * p;
    assert size as real == Scaled(size, k) * p;
  }

  /** The scaled value is at least one exactly when the size reaches the power. */
  lemma ScaledAtLeastOne(size: int, k: nat)
    ensures Scaled(size, k) >= 1.0 <==> size >= Pow(k)
  {
    var p := Pow(k) as real;
    assert size as real == Scaled(size, k) * p;
  }

  /** The index Humanise picks is the one and only index satisfying the
      closed-form bracket 1024^k <= size < 1024^(k+1). */
  lemma PrefixIndexCharacterised(size: int, k: nat)
    ensures IsPrefixIndex(size, k) <==> k == Humanise(size).index
  {
    var h := Humanise(size).index;
    if h >= 1 {
      ScaledBelowBase(size, h - 1);
    }
    if h < Overflow {
      ScaledBelowBase(size, h);
    }
    assert IsPrefixIndex(size, h);
    if IsPrefixIndex(size, k) && k != h {
      if k < h {
        ScaledBelowBase(size, k);
      } else {
        assert h < Overflow;
        PowIncreasing(h + 1, k);
      }
    }
  }

  /** No index other than the chosen one satisfies the closed-form bracket. */
  lemma ChosenIndexUnique(size: int)
    ensures forall k: nat | IsPrefixIndex(size, k) :: k == Humanise(size).index
  {
    forall k: nat | IsPrefixIndex(size, k)
      ensures k == Humanise(size).index
    {
      PrefixIndexCharacterised(size, k);
    }
  }

  /** A size below 1024, negatives included, is never divided: it is shown
      with the empty prefix, as `<size> <suffix>`. Rendering is total here,
      including negatives beyond the range of a float. */
  lemma BelowBaseUnscaled(size: int, show: real -> string, suffix: string)
    requires size < Base
    ensures Humanise(size) == Reading(size as real, 0)
    ensures Format(size, show, suffix) == show(size as real) + " " + suffix
  {
    ScaledBelowBase(size, 0);
  }

  /** Below the overflow, a reading with a non-empty prefix lies in [1, 1024). */
  lemma ValueInRange(size: int)
    ensures var r := Humanise(size);
      1 <= r.index < Overflow ==> 1.0 <= r.value < Base as real
  {
    var r := Humanise(size);
    if 1 <= r.index < Overflow {
      PrefixIndexCharacterised(size, r.index);
      ScaledAtLeastOne(size, r.index);
    }
  }

  /** A larger size never gets an earlier unit in `"", K, M, G, T, P, E, Z, Yi`. */
  lemma HumaniseMonotone(small: int, large: int)
    requires small <= large
    ensures Humanise(small).index <= Humanise(large).index
  {
    var a := Humanise(small).index;
    var b := Humanise(large).index;
    PrefixIndexCharacterised(small, a);
    PrefixIndexCharacterised(large, b);
    if b + 1 < a {
      PowIncreasing(b + 1, a);
    }
  }

  /** The loop runs to completion exactly when the size reaches 1024^8; the
      unit is then `Yi` and the value is the size over 1024^8. */
  lemma OverflowCase(size: int)
    ensures Humanise(size).index == Overflow <==> size >= Pow(Overflow)
    ensures Humanise(size).index == Overflow ==>
      Humanise(size).Unit() == OverflowUnit && Humanise(size).value == Scaled(size, Overflow)
  {
    var r := Humanise(size);
    PrefixIndexCharacterised(size, r.index);
    if r.index + 1 < Overflow {
      PowIncreasing(r.index + 1, Overflow);
    }
    if r.index == Overflow {
      assert r.Unit() == OverflowUnit;
    }
  }

  /** In exact arithmetic the overflow value has no upper bound: `n` times
      1024^9 bytes reads as `1024 n Yi`, which is 1024 or more. */
  lemma OverflowUnbounded(n: nat)
    requires n >= 1
    ensures Humanise(n * Pow(Overflow + 1)) == Reading((n * Base) as real, Overflow)
  {
    var size := n * Pow(Overflow + 1);
    assert Pow(Overflow + 1) == Base * Pow(Overflow);
    assert size == (n * Base) * Pow(Overflow);
    OverflowCase(size);
    assert size >= Pow(Overflow);
  }

  /** For a non-negative byte count, which is what the caller passes, the
      reported value is non-negative too. */
  lemma NonNegativeReading(size: int)
    requires size >= 0
    ensures Humanise(size).value >= 0.0
  {
  }
}
