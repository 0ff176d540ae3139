/**
 * The "WxH" world-size argument (Project/gol.py: parse_world_size_arg).
 */
module WorldSizeArg {
  import opened Wrappers
  import opened Strings

  /** The size used whenever the argument is unusable: 80 wide, 40 high. */
  const DefaultWorldSize: (int, int) := (80, 40)

  /** The argument split on "x" must give exactly two integers, both at
      least 1, read as (width, height); anything else gives the default. */
  function ParseWorldSizeArg(arg: string): (r: (int, int))
    ensures r.0 >= 1 && r.1 >= 1
    ensures r == DefaultWorldSize || (
      && |Split(arg, 'x')| == 2
      && ParseInt(Split(arg, 'x')[0]) == Some(r.0)
      && ParseInt(Split(arg, 'x')[1]) == Some(r.1))
    ensures |Split(arg, 'x')| != 2 ==> r == DefaultWorldSize
    ensures var v := Split(arg, 'x');
      && |v| == 2 && ParseInt(v[0]).Some? && ParseInt(v[1]).Some?
      && ParseInt(v[0]).value >= 1 && ParseInt(v[1]).value >= 1
      ==> r == (ParseInt(v[0]).value, ParseInt(v[1]).value)
  {
    var values := Split(arg, 'x');
    if |values| != 2 then DefaultWorldSize
    else
      match (ParseInt(values[0]), ParseInt(values[1]))
      case (Some(width), Some(height)) =>
        if width < 1 || height < 1 then DefaultWorldSize else (width, height)
      case _ => DefaultWorldSize
  }

  /** Two positive numbers written out and joined by "x" read back as
      themselves. */
  lemma ParseWorldSizeArgRoundTrip(width: nat, height: nat)
    requires width >= 1 && height >= 1
    ensures ParseWorldSizeArg(NatToString(width) + "x" + NatToString(height)) == (width, height)
  {
    var w, h := NatToString(width), NatToString(height);
    assert 'x' !in w && 'x' !in h;
    SplitAtFirstSeparator(w, h, 'x');
    SplitWithoutSeparator(h, 'x');
    ParseIntOfNatToString(width);
    ParseIntOfNatToString(height);
  }

  /** An argument with a second "x" falls back to the default. */
  lemma ParseWorldSizeArgTooManyParts(a: string, b: string, c: string)
    requires 'x' !in a && 'x' !in b
    ensures ParseWorldSizeArg(a + "x" + b + "x" + c) == DefaultWorldSize
  {
    SplitAtFirstSeparator(a, b + "x" + c, 'x');
    SplitAtFirstSeparator(b, c, 'x');
    assert a + "x" + b + "x" + c == a + ['x'] + (b + ['x'] + c);
  }

  /** A zero or negative side falls back to the default. */
  lemma ParseWorldSizeArgNotPositive(width: nat, height: nat)
    requires width == 0 || height == 0
    ensures ParseWorldSizeArg(NatToString(width) + "x" + NatToString(height)) == DefaultWorldSize
  {
    var w, h := NatToString(width), NatToString(height);
    assert 'x' !in w && 'x' !in h;
    SplitAtFirstSeparator(w, h, 'x');
    SplitWithoutSeparator(h, 'x');
    ParseIntOfNatToString(width);
    ParseIntOfNatToString(height);
  }
}
