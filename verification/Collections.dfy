/** Small facts about sets and sequences that several models share. */
module Collections {
  ghost function Elements<A>(s: seq<A>): set<A> {
    set x | x in s
  }

  lemma FirstOfConcat<A>(s: seq<A>, t: seq<A>)
    requires s != []
    ensures s + t == [s[0]] + (s[1..] + t)
  {
  }

  lemma ConcatRight<A>(a: seq<A>, b: seq<A>, c: seq<A>, d: seq<A>)
    ensures a + b + c + d == a + (b + (c + d))
  {
  }

  lemma DropTwice<A>(s: seq<A>, a: nat, b: nat)
    requires a + b <= |s|
    ensures s[a..][b..] == s[a + b..]
  {
  }

  lemma SliceIs<A>(s: seq<A>, a: nat, n: nat)
    requires a + n <= |s|
    ensures s[a..][..n] == s[a..a + n]
  {
  }

  lemma SubsetCard<A>(a: set<A>, b: set<A>)
    requires a <= b
    ensures |a| <= |b|
  {
    assert |b - a| >= 0 && b == a + (b - a);
  }
}
