/**
 * Case-insensitive profile names and the loop that makes a name unique in
 * the library: `base`, then `base (1)`, `base (2)`, ... until no library
 * name equals the candidate ignoring case.
 */
module Names {
  import opened Profiles

  /** Lower-casing of one code unit: A-Z become a-z, every other unit stays. */
  function LowerUnit(c: CodeUnit): CodeUnit
  {
    if 65 <= c <= 90 then c + 32 else c
  }

  /** A name lower-cased unit by unit. */
  function Lower(t: Text): (r: Text)
    ensures |r| == |t|
  {
    seq(|t|, i requires 0 <= i < |t| => LowerUnit(t[i]))
  }

  /** Two names are the same when they are equal after lower-casing. */
  predicate SameName(a: Text, b: Text)
  {
    Lower(a) == Lower(b)
  }

  /** Some library entry already has name n, ignoring case. */
  predicate NameTaken(lib: seq<Profile>, n: Text)
  {
    exists i :: 0 <= i < |lib| && SameName(lib[i].name, n)
  }

  /** The decimal digits of k, most significant first, as the counter is
      written into a name. */
  function Decimal(k: nat): (r: Text)
    ensures 0 < |r|
    ensures forall i :: 0 <= i < |r| ==> 48 <= r[i] <= 57
  {
    if k < 10 then [48 + k] else Decimal(k / 10) + [48 + k % 10]
  }

  /** Candidate j: the base name itself for j = 0, `base (j)` after. */
  function Candidate(base: Text, j: nat): Text
  {
    if j == 0 then base else base + [32, 40] + Decimal(j) + [41]
  }

  /** Different numbers have different decimal forms. */
  lemma {:induction false} DecimalInjective(a: nat, b: nat)
    requires Decimal(a) == Decimal(b)
    ensures a == b
  {
    if a >= 10 && b >= 10 {
      var da, db := Decimal(a), Decimal(b);
      assert da[..|da| - 1] == Decimal(a / 10);
      assert db[..|db| - 1] == Decimal(b / 10);
      DecimalInjective(a / 10, b / 10);
    }
  }

  lemma LowerAppend(a: Text, b: Text)
    ensures Lower(a + b) == Lower(a) + Lower(b)
  {
    assert forall i :: 0 <= i < |a + b| ==> Lower(a + b)[i] == (Lower(a) + Lower(b))[i];
  }

  /** No two candidates are the same name, even ignoring case. */
  lemma CandidatesDistinct(base: Text, j: nat, k: nat)
    requires j != k
    ensures !SameName(Candidate(base, j), Candidate(base, k))
  {
    if j > 0 && k > 0 {
      var sj, sk := [32, 40] + Decimal(j) + [41], [32, 40] + Decimal(k) + [41];
      assert Candidate(base, j) == base + sj;
      assert Candidate(base, k) == base + sk;
      LowerAppend(base, sj);
      LowerAppend(base, sk);
      assert Lower(sj) == sj;
      assert Lower(sk) == sk;
      if Lower(base) + sj == Lower(base) + sk {
        assert sj == (Lower(base) + sj)[|base|..];
        assert sk == (Lower(base) + sk)[|base|..];
        assert Decimal(j) == sj[2..|sj| - 1];
        assert Decimal(k) == sk[2..|sk| - 1];
        DecimalInjective(j, k);
      }
    }
  }

  /** A set of indices below n has at most n members. */
  lemma {:induction false} BoundedSetSize(s: set<nat>, n: nat)
    requires forall x :: x in s ==> x < n
    ensures |s| <= n
  {
    if n > 0 {
      var t := s - {n - 1};
      BoundedSetSize(t, n - 1);
      if n - 1 in s {
        assert s == t + {n - 1};
      } else {
        assert s == t;
      }
    }
  }

  /** If candidates 0..n are all taken, n + 1 distinct library entries take
      them. */
  lemma {:induction false} Takers(lib: seq<Profile>, base: Text, n: nat) returns (s: set<nat>)
    requires forall j :: 0 <= j <= n ==> NameTaken(lib, Candidate(base, j))
    ensures |s| == n + 1
    ensures forall x :: x in s ==> x < |lib| && exists j :: 0 <= j <= n && SameName(lib[x].name, Candidate(base, j))
  {
    assert NameTaken(lib, Candidate(base, n));
    var w :| 0 <= w < |lib| && SameName(lib[w].name, Candidate(base, n));
    if n == 0 {
      s := {w};
    } else {
      var t := Takers(lib, base, n - 1);
      if w in t {
        var j :| 0 <= j <= n - 1 && SameName(lib[w].name, Candidate(base, j));
        CandidatesDistinct(base, j, n);
      }
      s := t + {w};
    }
  }

  /** At most |lib| candidates can be taken, so among 0..|lib| one is free. */
  lemma SomeCandidateFree(lib: seq<Profile>, base: Text, n: nat)
    requires forall j :: 0 <= j <= n ==> NameTaken(lib, Candidate(base, j))
    ensures n < |lib|
  {
    var s := Takers(lib, base, n);
    BoundedSetSize(s, |lib|);
  }

  /** The first free candidate at or after j (searching no further than
      candidate |lib|). */
  function FreeFrom(lib: seq<Profile>, base: Text, j: nat): (r: nat)
    ensures j <= r && (j <= |lib| ==> r <= |lib|)
    decreases |lib| - j
  {
    if j >= |lib| || !NameTaken(lib, Candidate(base, j)) then j else FreeFrom(lib, base, j + 1)
  }

  /** The name the uniquifying loop settles on. */
  function UniqueNameOf(lib: seq<Profile>, base: Text): Text
  {
    Candidate(base, FreeFrom(lib, base, 0))
  }

  lemma {:induction false} FreeFromTaken(lib: seq<Profile>, base: Text, j: nat)
    requires forall i :: 0 <= i < j ==> NameTaken(lib, Candidate(base, i))
    ensures j <= FreeFrom(lib, base, j)
    ensures forall i :: 0 <= i < FreeFrom(lib, base, j) ==> NameTaken(lib, Candidate(base, i))
    ensures !NameTaken(lib, Candidate(base, FreeFrom(lib, base, j)))
    decreases |lib| - j
  {
    if j < |lib| && NameTaken(lib, Candidate(base, j)) {
      FreeFromTaken(lib, base, j + 1);
    } else if NameTaken(lib, Candidate(base, j)) {
      SomeCandidateFree(lib, base, j);
    }
  }

  /** The uniquified name is free, and it is the first free candidate:
      `base` itself when free, else `base (k)` for the least such k. */
  lemma UniqueNameIsFirstFree(lib: seq<Profile>, base: Text)
    ensures !NameTaken(lib, UniqueNameOf(lib, base))
    ensures exists k: nat ::
      && UniqueNameOf(lib, base) == Candidate(base, k)
      && (forall j :: 0 <= j < k ==> NameTaken(lib, Candidate(base, j)))
    ensures !NameTaken(lib, base) ==> UniqueNameOf(lib, base) == base
  {
    FreeFromTaken(lib, base, 0);
  }

  /** The while loop of code.js (load and import): try `base`, then
      `base (counter)` with counter = 1, 2, ... while the name is taken. */
  method UniqueName(lib: seq<Profile>, base: Text) returns (name: Text)
    ensures name == UniqueNameOf(lib, base)
    ensures !NameTaken(lib, name)
  {
    FreeFromTaken(lib, base, 0);
    name := base;
    var counter := 1;
    while NameTaken(lib, name)
      invariant 1 <= counter && counter - 1 <= FreeFrom(lib, base, 0)
      invariant name == Candidate(base, counter - 1)
      decreases FreeFrom(lib, base, 0) + 1 - counter
    {
      name := base + [32, 40] + Decimal(counter) + [41];
      counter := counter + 1;
    }
  }
}
