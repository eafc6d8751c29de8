/** split and join of tools/motelist/motelist.cpp. */
module SplitJoin {

  /** find_first_of(chars, from); the length of the string stands for npos. */
  function FirstOf(chars: string, s: string, from: nat): (n: nat)
    requires from <= |s|
    ensures from <= n <= |s| && (n < |s| ==> s[n] in chars) && forall i :: from <= i < n ==> s[i] !in chars
    decreases |s| - from
  {
    if from == |s| || s[from] in chars then from else FirstOf(chars, s, from + 1)
  }

  /** The pieces from position from on. */
  function Pieces(chars: string, s: string, from: nat): (vs: seq<string>)
    requires from <= |s|
    ensures vs != []
    decreases |s| - from
  {
    var n := FirstOf(chars, s, from);
    if n == |s| then [s[from..]] else [s[from..n]] + Pieces(chars, s, n + 1)
  }

  function Joined(sep: string, vs: seq<string>): string {
    if vs == [] then "" else if |vs| == 1 then vs[0] else Joined(sep, vs[..|vs| - 1]) + sep + vs[|vs| - 1]
  }

  /** The pieces behind the separator at n; none at the end of the string. */
  function Behind(chars: string, s: string, n: nat): seq<string>
    requires n <= |s|
  {
    if n == |s| then [] else Pieces(chars, s, n + 1)
  }

  method Split(chars: string, str: string) returns (vs: seq<string>)
    ensures vs == Pieces(chars, str, 0)
  {
    hide *;
    NextPiece(chars, str, 0);
    var n0 := 0;
    var n1 := FirstOf(chars, str, 0);
    vs := [str[n0..n1]];
    while n1 != |str|
      invariant n0 <= n1 <= |str|
      invariant vs + Behind(chars, str, n1) == Pieces(chars, str, 0)
      decreases |str| - n0
    {
      n0 := n1 + 1;
      NextPiece(chars, str, n0);
      BehindIs(chars, str, n1);
      n1 := FirstOf(chars, str, n0);
      Regroup(vs, [str[n0..n1]], Behind(chars, str, n1));
      if n1 != |str| {
        vs := vs + [str[n0..n1]];
      } else {
        vs := vs + [str[n0..]];
      }
    }
    BehindIs(chars, str, n1);
  }

  lemma BehindIs(chars: string, s: string, n: nat)
    requires n <= |s|
    ensures Behind(chars, s, n) == if n == |s| then [] else Pieces(chars, s, n + 1)
  {
  }

  lemma Regroup(a: seq<string>, b: seq<string>, c: seq<string>)
    ensures a + (b + c) == a + b + c
  {
  }

  lemma Cut(c: char, s: string, from: nat, n: nat)
    requires from <= n < |s| && s[n] == c
    ensures s[from..] == s[from..n] + [c] + s[n + 1..]
  {
  }

  lemma NextPiece(chars: string, s: string, from: nat)
    requires from <= |s|
    ensures var n := FirstOf(chars, s, from);
            && Pieces(chars, s, from) == [s[from..n]] + Behind(chars, s, n)
            && (n == |s| ==> s[from..n] == s[from..])
  {
    hide FirstOf;
    var n := FirstOf(chars, s, from);
    if n == |s| {
      assert s[from..n] == s[from..];
      assert [s[from..n]] + [] == [s[from..]];
    }
  }

  method Join(sep: string, vs: seq<string>) returns (j: string)
    ensures j == Joined(sep, vs)
  {
    j := "";
    var i := 0;
    if i != |vs| {
      j := vs[i];
      i := i + 1;
    }
    while i != |vs|
      invariant i <= |vs| && (vs != [] ==> i > 0) && j == Joined(sep, vs[..i])
      decreases |vs| - i
    {
      j := j + sep + vs[i];
      assert vs[..i + 1][..i] == vs[..i];
      i := i + 1;
    }
    assert vs[..|vs|] == vs;
  }

  lemma {:induction false} JoinedFront(sep: string, v: string, vs: seq<string>)
    requires vs != []
    ensures Joined(sep, [v] + vs) == v + sep + Joined(sep, vs)
    decreases |vs|
  {
    var all := [v] + vs;
    if |vs| == 1 {
      assert all[..1] == [v];
    } else {
      assert all[..|all| - 1] == [v] + vs[..|vs| - 1];
      JoinedFront(sep, v, vs[..|vs| - 1]);
    }
  }

  function Count(c: char, s: string): nat {
    if s == "" then 0 else Count(c, s[..|s| - 1]) + (if s[|s| - 1] == c then 1 else 0)
  }

  lemma {:induction false} CountAppend(c: char, s: string, t: string)
    ensures Count(c, s + t) == Count(c, s) + Count(c, t)
    decreases |t|
  {
    if t == "" {
      assert s + t == s;
    } else {
      assert (s + t)[..|s + t| - 1] == s + t[..|t| - 1];
      CountAppend(c, s, t[..|t| - 1]);
    }
  }

  lemma {:induction false} CountNone(c: char, s: string)
    requires c !in s
    ensures Count(c, s) == 0
  {
    if s != "" {
      CountNone(c, s[..|s| - 1]);
    }
  }

  lemma {:induction false} SplitThenJoin(c: char, s: string, from: nat)
    requires from <= |s|
    ensures Joined([c], Pieces([c], s, from)) == s[from..]
    decreases |s| - from
  {
    hide *;
    var n := FirstOf([c], s, from);
    NextPiece([c], s, from);
    BehindIs([c], s, n);
    if n < |s| {
      SplitThenJoin(c, s, n + 1);
      JoinedFront([c], s[from..n], Pieces([c], s, n + 1));
      Cut(c, s, from, n);
    } else {
      assert [s[from..]] + [] == [s[from..]];
      JoinedOne([c], s[from..]);
    }
  }

  lemma JoinedOne(sep: string, v: string)
    ensures Joined(sep, [v]) == v
  {
  }

  lemma {:induction false} PiecesAreFree(c: char, s: string, from: nat, i: nat)
    requires from <= |s| && i < |Pieces([c], s, from)|
    ensures c !in Pieces([c], s, from)[i]
    decreases |s| - from
  {
    if i > 0 {
      PiecesAreFree(c, s, FirstOf([c], s, from) + 1, i - 1);
    }
  }

  lemma {:induction false} PiecesCount(c: char, s: string, from: nat)
    requires from <= |s|
    ensures |Pieces([c], s, from)| == 1 + Count(c, s[from..])
    decreases |s| - from
  {
    hide *;
    var n := FirstOf([c], s, from);
    NextPiece([c], s, from);
    BehindIs([c], s, n);
    CountNone(c, s[from..n]);
    if n < |s| {
      PiecesCount(c, s, n + 1);
      Cut(c, s, from, n);
      CountAppend(c, s[from..n] + [c], s[n + 1..]);
      CountAppend(c, s[from..n], [c]);
      CountOne(c);
    }
  }

  lemma CountOne(c: char)
    ensures Count(c, [c]) == 1
  {
  }

  /** Joining what was split gives the string back; no piece holds the separator; there is one piece more
      than there are separators. */
  lemma SplitJoin(c: char, s: string)
    ensures var vs := Pieces([c], s, 0);
            && Joined([c], vs) == s && |vs| == 1 + Count(c, s)
            && forall i :: 0 <= i < |vs| ==> c !in vs[i]
  {
    SplitThenJoin(c, s, 0);
    PiecesCount(c, s, 0);
    assert s[0..] == s;
    forall i | 0 <= i < |Pieces([c], s, 0)| ensures c !in Pieces([c], s, 0)[i] {
      PiecesAreFree(c, s, 0, i);
    }
  }

  lemma {:induction false} FirstOfIs(c: char, s: string, from: nat, n: nat)
    requires from <= n <= |s| && c !in s[from..n] && (n < |s| ==> s[n] == c)
    ensures FirstOf([c], s, from) == n
    decreases n - from
  {
  }

  lemma {:induction false} JoinThenSplit(c: char, s: string, from: nat, vs: seq<string>)
    requires from <= |s| && vs != [] && s[from..] == Joined([c], vs)
    requires forall i :: 0 <= i < |vs| ==> c !in vs[i]
    ensures Pieces([c], s, from) == vs
    decreases |vs|
  {
    hide *;
    var v := vs[0];
    var n := from + |v|;
    if |vs| == 1 {
      assert vs == [v];
      JoinedOne([c], v);
      assert s[from..n] == s[from..];
    } else {
      assert vs == [v] + vs[1..];
      JoinedFront([c], v, vs[1..]);
      HeadOf(c, s, from, v, Joined([c], vs[1..]));
      JoinThenSplit(c, s, n + 1, vs[1..]);
    }
    FirstOfIs(c, s, from, n);
    NextPiece([c], s, from);
    BehindIs([c], s, n);
  }

  lemma HeadOf(c: char, s: string, from: nat, v: string, rest: string)
    requires from <= |s| && s[from..] == v + [c] + rest
    ensures var n := from + |v|;
            n < |s| && s[from..n] == v && s[n] == c && s[n + 1..] == rest
  {
  }

  /** Splitting what was joined gives the list back, for a non-empty list of pieces without separators. */
  lemma JoinSplit(c: char, vs: seq<string>)
    requires vs != [] && forall i :: 0 <= i < |vs| ==> c !in vs[i]
    ensures Pieces([c], Joined([c], vs), 0) == vs
  {
    assert Joined([c], vs)[0..] == Joined([c], vs);
    JoinThenSplit(c, Joined([c], vs), 0, vs);
  }
}
