/**
  Album identifiers (`makeDirName` in both generations of `create`): the decimal creation
  timestamp, with a leading `-` replaced by `n`, made unique against the gallery's
  current listing by probing `base-1`, `base-2`, ... .
 */
module DirNames {
  import opened Decimal

  /** `${created}` with a leading `-` replaced by `n`. */
  function BaseName(created: int): (b: string)
    ensures |b| >= 1 && b[0] != '-'
    ensures created >= 0 ==> b == NatToString(created)
    ensures created < 0 ==> b == "n" + NatToString(-created)
  {
    var s := IntToString(created);
    if s[0] == '-' then "n" + s[1..] else s
  }

  /** Distinct timestamps get distinct base names: the `n` marker cannot clash with a digit. */
  lemma BaseNameInjective(a: int, b: int)
    ensures BaseName(a) == BaseName(b) ==> a == b
  {
    if BaseName(a) == BaseName(b) {
      var s := BaseName(a);
      if a < 0 && b < 0 {
        assert NatToString(-a) == s[1..] == NatToString(-b);
        NatToStringInjective(-a, -b);
      } else if a >= 0 && b >= 0 {
        NatToStringInjective(a, b);
      }
    }
  }

  /** The `k`-th name probed for `base`: the base itself, then `base-1`, `base-2`, ... */
  function Candidate(base: string, k: nat): string
  {
    if k == 0 then base else base + "-" + NatToString(k)
  }

  /** Different probe counts give different candidates, so the probe never repeats itself. */
  lemma CandidateInjective(base: string, j: nat, k: nat)
    ensures Candidate(base, j) == Candidate(base, k) ==> j == k
  {
    if Candidate(base, j) == Candidate(base, k) && j != 0 && k != 0 {
      var c := Candidate(base, j);
      var n := |base| + 1;
      assert NatToString(j) == c[n..] == NatToString(k);
      NatToStringInjective(j, k);
    }
  }

  function Elements(s: seq<string>): set<string>
  {
    set x | x in s
  }

  lemma {:induction false} ElementsBound(s: seq<string>)
    ensures |Elements(s)| <= |s|
  {
    if s != [] {
      ElementsBound(s[1..]);
      assert Elements(s) == Elements(s[1..]) + {s[0]};
    }
  }

  lemma {:induction false} SubsetBound<T>(a: set<T>, b: set<T>)
    requires a <= b
    ensures |a| <= |b|
  {
    if a != {} {
      var x :| x in a;
      SubsetBound(a - {x}, b - {x});
    }
  }

  function Probed(base: string, n: nat): set<string>
  {
    set j | 0 <= j < n :: Candidate(base, j)
  }

  lemma {:induction false} ProbedSize(base: string, n: nat)
    ensures |Probed(base, n)| == n
  {
    if n > 0 {
      ProbedSize(base, n - 1);
      assert Probed(base, n) == Probed(base, n - 1) + {Candidate(base, n - 1)};
      forall j | 0 <= j < n - 1
        ensures Candidate(base, j) != Candidate(base, n - 1)
      {
        CandidateInjective(base, j, n - 1);
      }
    }
  }

  /**
    Pigeonhole: when the first `n` candidates are all taken, `subDirs` holds at least `n`
    entries. This bounds the probe loop by `|subDirs| + 1` probes.
   */
  lemma ProbesBounded(base: string, subDirs: seq<string>, n: nat)
    requires forall j :: 0 <= j < n ==> Candidate(base, j) in subDirs
    ensures n <= |subDirs|
  {
    ProbedSize(base, n);
    SubsetBound(Probed(base, n), Elements(subDirs));
    ElementsBound(subDirs);
  }

  /** The probe loop from probe `k` on: the index of the first candidate not in `subDirs`. */
  function Probe(base: string, subDirs: seq<string>, k: nat): (r: nat)
    requires forall j :: 0 <= j < k ==> Candidate(base, j) in subDirs
    ensures k <= r <= |subDirs|
    ensures Candidate(base, r) !in subDirs
    ensures forall j :: 0 <= j < r ==> Candidate(base, j) in subDirs
    decreases |subDirs| - k
  {
    ProbesBounded(base, subDirs, k);
    if Candidate(base, k) !in subDirs then k
    else
      ProbesBounded(base, subDirs, k + 1);
      Probe(base, subDirs, k + 1)
  }

  /** `makeDirName(created, subDirs)`. */
  function MakeDirName(created: int, subDirs: seq<string>): (name: string)
    ensures name !in subDirs
    ensures |name| >= 1 && name[0] != '-'
    ensures BaseName(created) !in subDirs ==> name == BaseName(created)
    ensures BaseName(created) in subDirs ==>
              exists k :: 1 <= k <= |subDirs| && name == BaseName(created) + "-" + NatToString(k)
                          && forall j :: 1 <= j < k ==> BaseName(created) + "-" + NatToString(j) in subDirs
  {
    var base := BaseName(created);
    var k := Probe(base, subDirs, 0);
    assert k >= 1 ==> Candidate(base, k) == base + "-" + NatToString(k);
    assert forall j :: 1 <= j < k ==> Candidate(base, j) == base + "-" + NatToString(j);
    Candidate(base, k)
  }

  /** The name is the first free candidate in probe order, and that candidate is unique. */
  ghost predicate FirstFree(base: string, subDirs: seq<string>, name: string)
  {
    exists k: nat :: name == Candidate(base, k) && name !in subDirs
                     && forall j :: 0 <= j < k ==> Candidate(base, j) in subDirs
  }

  lemma MakeDirNameIsFirstFree(created: int, subDirs: seq<string>)
    ensures FirstFree(BaseName(created), subDirs, MakeDirName(created, subDirs))
  {
    var base := BaseName(created);
    var k := Probe(base, subDirs, 0);
    assert MakeDirName(created, subDirs) == Candidate(base, k);
  }

  /** Determinism: at most one name is the first free candidate. */
  lemma FirstFreeUnique(base: string, subDirs: seq<string>, a: string, b: string)
    requires FirstFree(base, subDirs, a) && FirstFree(base, subDirs, b)
    ensures a == b
  {
    var ka: nat :| a == Candidate(base, ka) && a !in subDirs
                   && forall j :: 0 <= j < ka ==> Candidate(base, j) in subDirs;
    var kb: nat :| b == Candidate(base, kb) && b !in subDirs
                   && forall j :: 0 <= j < kb ==> Candidate(base, j) in subDirs;
  }

  /** Different timestamps on a gallery that holds neither base name get different names. */
  lemma DistinctTimestampsDistinctNames(a: int, b: int, subDirs: seq<string>)
    requires a != b
    requires BaseName(a) !in subDirs && BaseName(b) !in subDirs
    ensures MakeDirName(a, subDirs) != MakeDirName(b, subDirs)
  {
    BaseNameInjective(a, b);
  }
}
