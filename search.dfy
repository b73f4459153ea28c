/**
 * The two overloads of std::string::find that the downloader uses:
 * find(str, pos) and find(ch, pos). Both return the first position at or
 * after pos, or npos (here None) when there is none.
 */
module Search {
  import opened Wrappers

  /** p occurs in s starting at position i. */
  predicate OccursAt<T(==)>(s: seq<T>, p: seq<T>, i: nat) {
    i + |p| <= |s| && s[i..i + |p|] == p
  }

  /** p occurs somewhere in s. */
  ghost predicate Contains<T>(s: seq<T>, p: seq<T>) {
    exists i: nat :: OccursAt(s, p, i)
  }

  /** s.find(p, from): the first occurrence of p at or after from. */
  function FindFrom<T(==)>(s: seq<T>, p: seq<T>, from: nat): (r: Option<nat>)
    ensures r.Some? ==> from <= r.value && OccursAt(s, p, r.value)
    ensures r.Some? ==> forall j: nat :: from <= j < r.value ==> !OccursAt(s, p, j)
    ensures r.None? ==> forall j: nat :: from <= j ==> !OccursAt(s, p, j)
    decreases |s| - from
  {
    if from + |p| > |s| then None
    else if s[from..from + |p|] == p then Some(from)
    else FindFrom(s, p, from + 1)
  }

  /** s.find(c, from): the first position at or after from holding c. */
  function FindChar<T(==)>(s: seq<T>, c: T, from: nat): (r: Option<nat>)
    ensures r.Some? ==> from <= r.value < |s| && s[r.value] == c
    ensures r.Some? ==> forall j :: from <= j < r.value ==> s[j] != c
    ensures r.None? ==> forall j :: from <= j < |s| ==> s[j] != c
    decreases |s| - from
  {
    if from >= |s| then None
    else if s[from] == c then Some(from)
    else FindChar(s, c, from + 1)
  }

  /** The first occurrence is unique: any occurrence with none before it is what find returns. */
  lemma FindFromIsFirst<T>(s: seq<T>, p: seq<T>, from: nat, k: nat)
    requires from <= k && OccursAt(s, p, k)
    requires forall j: nat :: from <= j < k ==> !OccursAt(s, p, j)
    ensures FindFrom(s, p, from) == Some(k)
  {
  }

  /** Appending to a string does not move an occurrence that is already there. */
  lemma {:induction false} FindFromExtend<T>(s: seq<T>, t: seq<T>, p: seq<T>)
    requires FindFrom(s, p, 0).Some?
    ensures FindFrom(s + t, p, 0) == FindFrom(s, p, 0)
  {
    var k := FindFrom(s, p, 0).value;
    assert (s + t)[k..k + |p|] == s[k..k + |p|];
    forall j: nat | j < k
      ensures !OccursAt(s + t, p, j)
    {
      assert !OccursAt(s, p, j);
      assert (s + t)[j..j + |p|] == s[j..j + |p|];
    }
    FindFromIsFirst(s + t, p, 0, k);
  }

  /** A position where the text and the pattern differ rules out an occurrence there. */
  lemma MismatchRulesOut<T>(s: seq<T>, p: seq<T>, i: nat, k: nat)
    requires k < |p| && i + k < |s| && s[i + k] != p[k]
    ensures !OccursAt(s, p, i)
  {
    if i + |p| <= |s| {
      assert s[i..i + |p|][k] == s[i + k];
    }
  }
}
