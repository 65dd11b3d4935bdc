/** Reading a humanised size back: the text the humaniser produces is the
    rendered value, one space, the unit and the suffix, and nothing is lost
    in that layout. Given the suffix, the rendered value and the unit index
    can be recovered from the text, provided the rendering itself holds no
    space.
 */
module Display {
  import opened Helpers

  datatype Option<T> = None | Some(value: T)

  /** The index of the unit named `u` among `"", K, M, G, T, P, E, Z, Yi`, if any. */
  function UnitIndex(u: string): (r: Option<nat>)
    ensures r.Some? ==> r.value <= Overflow && UnitName(r.value) == u
    ensures r.None? ==> forall k: nat | k <= Overflow :: UnitName(k) != u
  {
    UnitIndexFrom(u, 0)
  }

  /** The search of `UnitIndex`, over the indices from `j` on. */
  function UnitIndexFrom(u: string, j: nat): (r: Option<nat>)
    requires j <= Overflow + 1
    ensures r.Some? ==> j <= r.value <= Overflow && UnitName(r.value) == u
    ensures r.None? ==> forall k: nat | j <= k <= Overflow :: UnitName(k) != u
    decreases Overflow + 1 - j
  {
    if j > Overflow then None
    else if UnitName(j) == u then Some(j)
    else UnitIndexFrom(u, j + 1)
  }

  /** The nine unit names are pairwise different, so a name determines its index. */
  lemma UnitNameInjective(i: nat, k: nat)
    requires i <= Overflow && k <= Overflow
    requires UnitName(i) == UnitName(k)
    ensures i == k
  {
    assert Prefixes == ["", "K", "M", "G", "T", "P", "E", "Z"];
  }

  /** Every unit the humaniser can report is recognised at its own index. */
  lemma UnitIndexOfName(k: nat)
    requires k <= Overflow
    ensures UnitIndex(UnitName(k)) == Some(k)
  {
    var r := UnitIndex(UnitName(k));
    assert r.Some?;
    UnitNameInjective(r.value, k);
  }

  /** The position of the first space in `s`, if there is one. */
  function FirstSpace(s: string): (r: Option<nat>)
    ensures r.Some? ==> r.value < |s| && s[r.value] == ' ' && ' ' !in s[..r.value]
    ensures r.None? ==> ' ' !in s
  {
    if |s| == 0 then None
    else if s[0] == ' ' then Some(0)
    else match FirstSpace(s[1..])
      case None => None
      case Some(i) => Some(i + 1)
  }

  /** Splits a displayed size into its rendered value and its unit index,
      given the suffix it was written with. */
  function ParseDisplay(text: string, suffix: string): Option<(string, nat)>
  {
    match FirstSpace(text)
    case None => None
    case Some(i) =>
      var tail := text[i + 1..];
      if |tail| < |suffix| || tail[|tail| - |suffix|..] != suffix then None
      else match UnitIndex(tail[..|tail| - |suffix|])
        case None => None
        case Some(k) => Some((text[..i], k))
  }

  /** The round trip of the output layout: parsing what the humaniser writes
      gives back the rendered value and the chosen unit. */
  lemma DisplayRoundTrip(size: int, show: real -> string, suffix: string)
    requires ' ' !in show(Humanise(size).value)
    ensures ParseDisplay(Format(size, show, suffix), suffix)
      == Some((show(Humanise(size).value), Humanise(size).index))
  {
    var r := Humanise(size);
    var shown := show(r.value);
    var text := Format(size, show, suffix);
    assert text == shown + " " + (r.Unit() + suffix);
    FirstSpaceAfter(shown, r.Unit() + suffix);
    var tail := text[|shown| + 1..];
    assert tail == r.Unit() + suffix;
    assert tail[|tail| - |suffix|..] == suffix;
    assert tail[..|tail| - |suffix|] == r.Unit();
    UnitIndexOfName(r.index);
    assert text[..|shown|] == shown;
  }

  /** A space appended to a space-free prefix is the first space of the text. */
  lemma {:induction false} FirstSpaceAfter(head: string, rest: string)
    requires ' ' !in head
    ensures FirstSpace(head + " " + rest) == Some(|head|)
    decreases |head|
  {
    if |head| > 0 {
      assert (head + " " + rest)[1..] == head[1..] + " " + rest;
      FirstSpaceAfter(head[1..], rest);
    }
  }
}
