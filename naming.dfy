/**
 * The file name `add_file` makes up when the request brings none: `main<ext>`
 * if that is free, otherwise `file1<ext>`, `file2<ext>`, … until a free one.
 */
module Naming {
  import opened Text
  import opened Extensions

  /** The name tried in round `n` of the search: round 0 is `main<ext>`, round n is `file<n><ext>`. */
  function Candidate(n: nat, ext: string): string {
    if n == 0 then "main" + ext else "file" + NatToString(n) + ext
  }

  /** Round `n` is the first whose candidate is not among the `taken` names. */
  ghost predicate FirstFree(taken: set<string>, ext: string, n: nat) {
    Candidate(n, ext) !in taken && forall m: nat :: m < n ==> Candidate(m, ext) in taken
  }

  /** No two rounds try the same name. */
  lemma CandidateInjective(a: nat, b: nat, ext: string)
    ensures Candidate(a, ext) == Candidate(b, ext) ==> a == b
  {
    var x, y := Candidate(a, ext), Candidate(b, ext);
    if x == y {
      if a == 0 || b == 0 {
        assert x[0] == (if a == 0 then 'm' else 'f');
        assert y[0] == (if b == 0 then 'm' else 'f');
      } else {
        var sa, sb := NatToString(a), NatToString(b);
        assert |sa| == |sb|;
        assert sa == x[4..4 + |sa|];
        assert sb == y[4..4 + |sb|];
        NatToStringInjective(a, b);
      }
    }
  }

  /** At most one round is the first free one. */
  lemma FirstFreeUnique(taken: set<string>, ext: string, n1: nat, n2: nat)
    requires FirstFree(taken, ext, n1) && FirstFree(taken, ext, n2)
    ensures n1 == n2
  {
  }

  /**
   * The search loop of `add_file`. The name returned is not taken, and it is the
   * candidate of the first free round, with the suffix chosen by the request's
   * language. The loop ends because each round that finds its name taken uses up
   * one more of the finitely many taken names.
   */
  method AutoName(taken: set<string>, language: string) returns (name: string)
    ensures name !in taken
    ensures exists n: nat :: name == Candidate(n, FileExtension(language)) && FirstFree(taken, FileExtension(language), n)
  {
    var ext := FileExtension(language);
    name := "main" + ext;
    var counter: nat := 1;
    ghost var seen: set<string> := {};
    while name in taken
      invariant counter >= 1
      invariant name == Candidate(counter - 1, ext)
      invariant seen <= taken
      invariant forall m: nat :: m < counter - 1 ==> Candidate(m, ext) in taken
      invariant forall s :: s in seen ==> exists m: nat :: m < counter - 1 && s == Candidate(m, ext)
      decreases taken - seen
    {
      forall s | s in seen ensures s != name {
        var m: nat :| m < counter - 1 && s == Candidate(m, ext);
        CandidateInjective(m, counter - 1, ext);
      }
      seen := seen + {name};
      name := "file" + NatToString(counter) + ext;
      counter := counter + 1;
    }
    assert FirstFree(taken, ext, counter - 1);
  }
}
