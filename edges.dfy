/** The removed-edge token codec of the cycle cutter: a token is the index of
    the removed target in its parent's dependency list, then `@@`, then the
    target's node id. */
module Edges {
  import opened Wrappers
  import opened Strings

  const Delimiter: string := "@@"

  /** What `splitEdge` returns: `index` is `None` for `NaN`, `to` is `None` for
      `undefined` (a token without a delimiter). */
  datatype EdgeToken = EdgeToken(index: Option<int>, to: Option<string>)

  /** `buildEdge(index, to)`: the decimal text of the index, the delimiter, the
      target. The first delimiter in the token is the one after the number. */
  function BuildEdge(index: int, to: string): (e: string)
    ensures IndexOf(e, Delimiter) == Some(|IntToString(index)|)
    ensures e[|IntToString(index)| + |Delimiter|..] == to
  {
    var digits := IntToString(index);
    IndexOfAfterPrefix(digits, Delimiter, to);
    digits + Delimiter + to
  }

  /** `splitEdge(edge)`: the first two `@@`-separated pieces, the first one
      read by `parseInt`. */
  function SplitEdge(edge: string): EdgeToken {
    var pieces := Split(edge, Delimiter);
    EdgeToken(ParseInt(pieces[0]), if |pieces| > 1 then Some(pieces[1]) else None)
  }

  /** Decoding undoes encoding for every integer index, negative ones included,
      as long as the target holds no delimiter. */
  lemma SplitBuildEdge(index: int, to: string)
    requires !Contains(to, Delimiter)
    ensures SplitEdge(BuildEdge(index, to)) == EdgeToken(Some(index), Some(to))
  {
    var digits := IntToString(index);
    var e := BuildEdge(index, to);
    assert e[..|digits|] == digits;
    assert Split(e, Delimiter) == [digits] + Split(to, Delimiter);
    ParseIntOfIntToString(index);
  }

  /** A target that itself holds the delimiter loses everything from its first
      delimiter on. */
  lemma SecondDelimiterLost(index: int, to: string)
    requires Contains(to, Delimiter)
    ensures SplitEdge(BuildEdge(index, to)).index == Some(index)
    ensures SplitEdge(BuildEdge(index, to)).to == Some(to[..IndexOf(to, Delimiter).value])
    ensures SplitEdge(BuildEdge(index, to)).to != Some(to)
  {
    var digits := IntToString(index);
    var e := BuildEdge(index, to);
    assert e[..|digits|] == digits;
    assert Split(e, Delimiter) == [digits] + Split(to, Delimiter);
    ParseIntOfIntToString(index);
  }
}
