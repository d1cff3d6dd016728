/** Heading anchors made unique the way github-slugger does it. */
module Anchors {

  function Digit(d: nat): char
    requires d < 10
  {
    "0123456789"[d]
  }

  function Decimal(n: nat): (r: string)
    ensures r != ""
  {
    if n < 10 then [Digit(n)] else Decimal(n / 10) + [Digit(n % 10)]
  }

  function Suffixed(base: string, k: nat): string {
    base + "-" + Decimal(k)
  }

  lemma {:induction false} DecimalInjective(m: nat, n: nat)
    requires Decimal(m) == Decimal(n)
    ensures m == n
  {
    var a, b := Decimal(m), Decimal(n);
    assert a[|a| - 1] == Digit(m % 10) && b[|b| - 1] == Digit(n % 10);
    if m >= 10 && n >= 10 {
      assert a[..|a| - 1] == Decimal(m / 10) && b[..|b| - 1] == Decimal(n / 10);
      DecimalInjective(m / 10, n / 10);
    }
  }

  lemma SuffixedDiffers(base: string, k: nat)
    ensures Suffixed(base, k) != base
  {
    assert |Suffixed(base, k)| > |base|;
  }

  lemma SuffixedInjective(base: string, j: nat, k: nat)
    requires Suffixed(base, j) == Suffixed(base, k)
    ensures j == k
  {
    assert Suffixed(base, j)[|base| + 1..] == Decimal(j);
    assert Suffixed(base, k)[|base| + 1..] == Decimal(k);
    DecimalInjective(j, k);
  }

  /** The reference, which knows nothing of counters: the base itself while it is free, else the
      base with the least free number. */
  ghost predicate IsPick(base: string, taken: set<string>, result: string) {
    if base !in taken then result == base
    else exists k: nat :: k >= 1 && result == Suffixed(base, k) && LeastFree(base, taken, k)
  }

  ghost predicate LeastFree(base: string, taken: set<string>, k: nat) {
    Suffixed(base, k) !in taken && forall j: nat | 1 <= j < k :: Suffixed(base, j) in taken
  }

  lemma PickIsUnique(base: string, taken: set<string>, r: string, s: string)
    requires IsPick(base, taken, r) && IsPick(base, taken, s)
    ensures r == s && r !in taken
  {
    if base in taken {
      var j: nat :| j >= 1 && r == Suffixed(base, j) && LeastFree(base, taken, j);
      var k: nat :| k >= 1 && s == Suffixed(base, k) && LeastFree(base, taken, k);
      assert j == k by {
        assert !(j < k) && !(k < j);
      }
    }
  }

  /** The taken names that counting up from k still has to pass. */
  ghost function Ahead(base: string, taken: set<string>, k: nat): set<string> {
    set name | name in taken && exists j: nat :: k < j && name == Suffixed(base, j)
  }

  lemma AheadShrinks(base: string, taken: set<string>, k: nat)
    ensures Suffixed(base, k + 1) in taken ==> |Ahead(base, taken, k + 1)| < |Ahead(base, taken, k)|
    ensures Suffixed(base, k + 1) !in taken ==> |Ahead(base, taken, k + 1)| <= |Ahead(base, taken, k)|
  {
    var next := Suffixed(base, k + 1);
    forall j: nat | k + 1 < j ensures next != Suffixed(base, j) {
      if next == Suffixed(base, j) {
        SuffixedInjective(base, k + 1, j);
      }
    }
    assert Ahead(base, taken, k + 1) <= Ahead(base, taken, k) - {next};
    Subset(Ahead(base, taken, k + 1), Ahead(base, taken, k) - {next});
  }

  lemma {:induction false} Subset<T>(a: set<T>, b: set<T>)
    requires a <= b
    ensures |a| <= |b|
  {
    if a != {} {
      var x :| x in a;
      Subset(a - {x}, b - {x});
    }
  }

  function Names(names: seq<string>): set<string> {
    set n | n in names
  }

  class Slugger {
    var occurrences: map<string, nat>

    constructor ()
      ensures Valid() && occurrences == map[]
    {
      occurrences := map[];
    }

    /** Every number a counter has passed is taken. */
    ghost predicate Valid()
      reads this
    {
      forall base, j: nat | base in occurrences && 1 <= j <= occurrences[base] :: Suffixed(base, j) in occurrences
    }

    /** _unique. */
    method Unique(base: string) returns (result: string)
      requires Valid()
      modifies this
      ensures Valid()
      ensures IsPick(base, old(occurrences).Keys, result)
      ensures result !in old(occurrences) && occurrences.Keys == old(occurrences).Keys + {result}
    {
      hide Suffixed, Ahead;
      ghost var taken := occurrences.Keys;
      result := base;
      while result in occurrences
        invariant occurrences.Keys == taken
        invariant forall b | b in taken && b != base :: occurrences[b] == old(occurrences)[b]
        invariant base !in taken ==> result == base
        invariant base in taken && result != base ==>
                    1 <= occurrences[base] && result == Suffixed(base, occurrences[base])
        invariant base in taken ==> forall j: nat | 1 <= j < occurrences[base] :: Suffixed(base, j) in taken
        invariant result in taken && base in taken ==> forall j: nat | 1 <= j <= occurrences[base] :: Suffixed(base, j) in taken
        decreases (if base in taken then |Ahead(base, taken, occurrences[base])| else 0) + (if result in taken then 1 else 0)
      {
        AheadShrinks(base, taken, occurrences[base]);
        occurrences := occurrences[base := occurrences[base] + 1];
        result := Suffixed(base, occurrences[base]);
        SuffixedDiffers(base, occurrences[base]);
      }
      assert base in taken ==> LeastFree(base, taken, occurrences[base]);
      occurrences := occurrences[result := 0];
    }
  }

  /** Names given to slugs one after another: each is the pick among those before it. */
  ghost predicate Picked(slugs: seq<string>, names: seq<string>) {
    && |names| == |slugs|
    && (names == [] ||
        var last := |names| - 1;
        Picked(slugs[..last], names[..last]) && IsPick(slugs[last], Names(names[..last]), names[last]))
  }

  lemma {:induction false} PickedDiffer(slugs: seq<string>, names: seq<string>, i: nat, j: nat)
    requires Picked(slugs, names) && i < j < |names|
    ensures names[i] != names[j]
  {
    var last := |names| - 1;
    if j < last {
      PickedDiffer(slugs[..last], names[..last], i, j);
    } else {
      PickIsUnique(slugs[last], Names(names[..last]), names[last], names[last]);
      assert names[..last][i] in names[..last];
    }
  }

  /** The anchors of a document depend only on its slugs. */
  lemma {:induction false} PickedOnce(slugs: seq<string>, names: seq<string>, others: seq<string>)
    requires Picked(slugs, names) && Picked(slugs, others)
    ensures names == others
  {
    if names != [] {
      var last := |names| - 1;
      PickedOnce(slugs[..last], names[..last], others[..last]);
      PickIsUnique(slugs[last], Names(names[..last]), names[last], others[last]);
      assert names == names[..last] + [names[last]] && others == others[..last] + [others[last]];
    }
  }

  /** The headings of one document, in order. */
  method UniqueAll(slugs: seq<string>) returns (names: seq<string>)
    ensures Picked(slugs, names)
    ensures forall i, j | 0 <= i < j < |names| :: names[i] != names[j]
  {
    hide IsPick;
    var slugger := new Slugger();
    names := [];
    for i := 0 to |slugs|
      invariant slugger.Valid() && slugger.occurrences.Keys == Names(names)
      invariant Picked(slugs[..i], names)
    {
      var name := slugger.Unique(slugs[i]);
      assert slugs[..i + 1][..i] == slugs[..i] && (names + [name])[..i] == names;
      names := names + [name];
    }
    assert slugs[..|slugs|] == slugs;
    forall i, j | 0 <= i < j < |names| ensures names[i] != names[j] {
      PickedDiffer(slugs, names, i, j);
    }
  }
}
