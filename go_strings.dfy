// The part of Go's `strings` package that the storage accessor relies on:
// `strings.Split` with a one-character separator, and its inverse
// `strings.Join`, which serves as the reference definition of what Split
// must produce.

module GoStrings {

  /** `strings.Join(parts, string(sep))`: the pieces, in order, with one
      separator between neighbours. */
  function Join(parts: seq<string>, sep: char): string
    requires |parts| >= 1
    decreases |parts|
  {
    if |parts| == 1 then parts[0] else parts[0] + [sep] + Join(parts[1..], sep)
  }

  /** `strings.Split(s, string(sep))`: the maximal separator-free pieces of
      `s`, in order. The empty string splits into one empty piece, and a
      separator at either end yields an empty piece there. The first piece is
      the part of `s` before its first separator, or all of `s` if it has
      none. */
  function Split(s: string, sep: char): (parts: seq<string>)
    ensures |parts| >= 1
    ensures forall p | p in parts :: sep !in p
    ensures Join(parts, sep) == s
    ensures parts[0] <= s
    ensures |parts[0]| == |s| || s[|parts[0]|] == sep
    decreases |s|
  {
    if s == [] then [[]]
    else
      var rest := Split(s[1..], sep);
      if s[0] == sep then
        [[]] + rest
      else
        var parts := [[s[0]] + rest[0]] + rest[1..];
        assert parts[1..] == rest[1..];
        assert Join(parts, sep) == [s[0]] + Join(rest, sep);
        parts
  }

  /** Unfolding Join once: it starts with the first piece, and then either
      ends or continues with a separator and the join of the rest. */
  lemma JoinHead(parts: seq<string>, sep: char)
    requires |parts| >= 1
    ensures |Join(parts, sep)| >= |parts[0]|
    ensures Join(parts, sep)[..|parts[0]|] == parts[0]
    ensures |parts| == 1 ==> Join(parts, sep) == parts[0]
    ensures |parts| > 1 ==>
      |Join(parts, sep)| > |parts[0]| &&
      Join(parts, sep)[|parts[0]|] == sep &&
      Join(parts, sep)[|parts[0]| + 1..] == Join(parts[1..], sep)
  {
    if |parts| > 1 {
      var w := Join(parts, sep);
      assert w == parts[0] + ([sep] + Join(parts[1..], sep));
    }
  }

  /** Join is one-to-one on separator-free pieces. */
  lemma {:induction false} JoinInjective(p: seq<string>, q: seq<string>, sep: char)
    requires |p| >= 1 && |q| >= 1
    requires forall x | x in p :: sep !in x
    requires forall x | x in q :: sep !in x
    requires Join(p, sep) == Join(q, sep)
    ensures p == q
    decreases |p|
  {
    var w := Join(p, sep);
    JoinHead(p, sep);
    JoinHead(q, sep);
    var a, b := p[0], q[0];
    assert sep !in a && sep !in b by { assert a in p && b in q; }
    assert a == b;
    if |p| > 1 && |q| > 1 {
      assert forall x | x in p[1..] :: x in p;
      assert forall x | x in q[1..] :: x in q;
      JoinInjective(p[1..], q[1..], sep);
      assert p == [a] + p[1..] && q == [b] + q[1..];
    }
  }

  /** Split is fully determined by its contract: any separator-free pieces
      that join back to `s` are exactly Split's result. */
  lemma SplitUnique(s: string, sep: char, parts: seq<string>)
    requires |parts| >= 1
    requires forall p | p in parts :: sep !in p
    requires Join(parts, sep) == s
    ensures parts == Split(s, sep)
  {
    JoinInjective(parts, Split(s, sep), sep);
  }
}
