/** Achievement seeding and reading, from utils/achievements.py: the four
    initial badges, the insert-or-skip seeding loop over the `achievements`
    table (unique on name), and the read projection. */
module Achievements {

  /** The three badge icons; their SVG markup is not modelled. */
  datatype Icon = ExplorerIcon | EcoWarriorIcon | CommunityLeaderIcon

  /** A row of `achievements` (the id column is not modelled). `criteria`
      is the JSON text of the unlock criteria. */
  datatype Achievement = Achievement(
    name: string,
    description: string,
    icon: Icon,
    criteria: string,
    points: int,
    category: string,
    level: int)

  const InitialAchievements: seq<Achievement> := [
    Achievement("Explorer I", "Discover your first 5 sustainable businesses", ExplorerIcon,
                "{\"businesses_viewed\": 5}", 100, "exploration", 1),
    Achievement("Explorer II", "Discover 25 sustainable businesses", ExplorerIcon,
                "{\"businesses_viewed\": 25}", 250, "exploration", 2),
    Achievement("Eco Warrior I", "Find 5 businesses with 90%+ sustainability score", EcoWarriorIcon,
                "{\"high_sustainability_count\": 5}", 150, "sustainability", 1),
    Achievement("Community Leader I", "Explore sustainable businesses in 5 different states", CommunityLeaderIcon,
                "{\"states_visited\": 5}", 200, "community", 1)
  ]

  predicate IsBadgeCategory(c: string) { c == "exploration" || c == "sustainability" || c == "community" }

  predicate NameIn(rows: seq<Achievement>, name: string) {
    exists i :: 0 <= i < |rows| && rows[i].name == name
  }

  /** The unique constraint on `name`. */
  predicate UniqueNames(rows: seq<Achievement>) {
    forall i, j :: 0 <= i < j < |rows| ==> rows[i].name != rows[j].name
  }

  /** The seed names are pairwise distinct, and every seed has a badge
      category, a positive level and positive points. */
  lemma InitialAchievementsWellFormed()
    ensures UniqueNames(InitialAchievements)
    ensures forall a :: a in InitialAchievements ==> IsBadgeCategory(a.category) && a.level >= 1 && a.points > 0
  {
    var s := InitialAchievements;
    assert s[0].name[..8] == "Explorer" && s[2].name[..3] == "Eco" && s[3].name[..9] == "Community";
    assert s[0].name != s[1].name by { assert |s[0].name| != |s[1].name|; }
  }

  // ---------------------------------------------------------------------------
  // initialize_achievements
  // ---------------------------------------------------------------------------

  /** One insert attempt: a name already present raises IntegrityError, an
      insert that fails otherwise (`fails`) raises too; both roll back. */
  function InsertOrSkip(rows: seq<Achievement>, a: Achievement, fails: string -> bool): (r: seq<Achievement>)
    ensures r == rows || r == rows + [a]
    ensures r == rows + [a] <==> !NameIn(rows, a.name) && !fails(a.name)
  {
    if NameIn(rows, a.name) || fails(a.name) then rows else rows + [a]
  }

  /** The table after attempting every seed in order. */
  function Seeded(rows: seq<Achievement>, seeds: seq<Achievement>, fails: string -> bool): (r: seq<Achievement>)
    ensures |rows| <= |r| <= |rows| + |seeds|
    decreases |seeds|
  {
    if seeds == [] then rows
    else InsertOrSkip(Seeded(rows, seeds[..|seeds| - 1], fails), seeds[|seeds| - 1], fails)
  }

  lemma SeededStep(rows: seq<Achievement>, seeds: seq<Achievement>, n: nat, fails: string -> bool)
    requires n < |seeds|
    ensures Seeded(rows, seeds[..n + 1], fails) == InsertOrSkip(Seeded(rows, seeds[..n], fails), seeds[n], fails)
  {
    assert seeds[..n + 1][..n] == seeds[..n];
  }

  /** Seeding never changes or removes a row: the old table is a prefix,
      and every added row is a seed. */
  lemma {:induction false} SeededExtends(rows: seq<Achievement>, seeds: seq<Achievement>, fails: string -> bool)
    ensures Seeded(rows, seeds, fails)[..|rows|] == rows
    ensures forall a :: a in Seeded(rows, seeds, fails)[|rows|..] ==> a in seeds
    decreases |seeds|
  {
    if seeds != [] {
      var init := seeds[..|seeds| - 1];
      SeededExtends(rows, init, fails);
      var prev := Seeded(rows, init, fails);
      var r := Seeded(rows, seeds, fails);
      if r != prev {
        assert r == prev + [seeds[|seeds| - 1]];
        assert r[|rows|..] == prev[|rows|..] + [seeds[|seeds| - 1]];
      }
    }
  }

  /** The unique constraint holds after seeding. */
  lemma {:induction false} SeededNamesUnique(rows: seq<Achievement>, seeds: seq<Achievement>, fails: string -> bool)
    requires UniqueNames(rows)
    ensures UniqueNames(Seeded(rows, seeds, fails))
    decreases |seeds|
  {
    if seeds != [] {
      var init := seeds[..|seeds| - 1];
      SeededNamesUnique(rows, init, fails);
    }
  }

  /** A name present before a run is present after it. */
  lemma {:induction false} SeededKeepsNames(rows: seq<Achievement>, seeds: seq<Achievement>, fails: string -> bool, name: string)
    requires NameIn(rows, name)
    ensures NameIn(Seeded(rows, seeds, fails), name)
    decreases |seeds|
  {
    if seeds != [] {
      SeededKeepsNames(rows, seeds[..|seeds| - 1], fails, name);
      var prev := Seeded(rows, seeds[..|seeds| - 1], fails);
      var i :| 0 <= i < |prev| && prev[i].name == name;
      assert Seeded(rows, seeds, fails)[i] == prev[i];
    }
  }

  /** Every seed whose insert does not fail is in the table afterwards,
      exactly once, whatever happened to the seeds before it. */
  lemma {:induction false} SeedsPresent(rows: seq<Achievement>, seeds: seq<Achievement>, fails: string -> bool)
    requires UniqueNames(rows)
    ensures forall a :: a in seeds && !fails(a.name) ==> NameIn(Seeded(rows, seeds, fails), a.name)
    ensures UniqueNames(Seeded(rows, seeds, fails))
    decreases |seeds|
  {
    SeededNamesUnique(rows, seeds, fails);
    if seeds != [] {
      var init := seeds[..|seeds| - 1];
      var last := seeds[|seeds| - 1];
      SeedsPresent(rows, init, fails);
      var prev := Seeded(rows, init, fails);
      var r := Seeded(rows, seeds, fails);
      forall a | a in seeds && !fails(a.name) ensures NameIn(r, a.name) {
        if a == last {
          if !NameIn(prev, a.name) {
            assert r[|prev|] == a;
          }
        } else {
          assert a in init;
          SeededKeepsNames(prev, [last], fails, a.name);
          assert Seeded(prev, [last], fails) == r by {
            assert [last][..0] == [];
          }
        }
      }
    }
  }

  /** When every seed name is already present, seeding changes nothing. */
  lemma {:induction false} SeedingAllPresentIsNoop(rows: seq<Achievement>, seeds: seq<Achievement>, fails: string -> bool)
    requires forall a :: a in seeds ==> NameIn(rows, a.name)
    ensures Seeded(rows, seeds, fails) == rows
    decreases |seeds|
  {
    if seeds != [] {
      SeedingAllPresentIsNoop(rows, seeds[..|seeds| - 1], fails);
    }
  }

  /** Seeding is idempotent: after a run in which no insert failed, a
      second run (whatever fails in it) leaves the table unchanged. */
  lemma SeedingIdempotent(rows: seq<Achievement>, fails: string -> bool)
    requires UniqueNames(rows)
    ensures var once := Seeded(rows, InitialAchievements, _ => false);
      Seeded(once, InitialAchievements, fails) == once
  {
    SeedsPresent(rows, InitialAchievements, _ => false);
    SeedingAllPresentIsNoop(Seeded(rows, InitialAchievements, _ => false), InitialAchievements, fails);
  }

  /** The `achievements` table. */
  class AchievementTable {
    var rows: seq<Achievement>

    constructor ()
      ensures rows == []
    {
      rows := [];
    }

    /** `initialize_achievements`: one add-and-commit per seed, rolling back
        and continuing on any error. */
    method InitializeAchievements(fails: string -> bool)
      modifies this
      ensures rows == Seeded(old(rows), InitialAchievements, fails)
    {
      var seeds := InitialAchievements;
      for n := 0 to |seeds|
        invariant rows == Seeded(old(rows), seeds[..n], fails)
      {
        SeededStep(old(rows), seeds, n, fails);
        var a := seeds[n];
        if !(exists i :: 0 <= i < |rows| && rows[i].name == a.name) && !fails(a.name) {
          rows := rows + [a];
        }
      }
      assert seeds[..|seeds|] == seeds;
    }
  }

  // ---------------------------------------------------------------------------
  // get_all_achievements
  // ---------------------------------------------------------------------------

  /** The dictionary returned per achievement: criteria and id omitted. */
  datatype AchievementView = AchievementView(
    name: string,
    description: string,
    icon: Icon,
    points: int,
    category: string,
    level: int)

  function View(a: Achievement): AchievementView {
    AchievementView(a.name, a.description, a.icon, a.points, a.category, a.level)
  }

  function AllAchievements(rows: seq<Achievement>): (r: seq<AchievementView>)
    ensures |r| == |rows|
    ensures forall i :: 0 <= i < |rows| ==> r[i] == View(rows[i])
  {
    seq(|rows|, i requires 0 <= i < |rows| => View(rows[i]))
  }

  /** Seeding an empty table with pairwise distinct names, none of whose
      inserts fails, stores every seed, in order. */
  lemma {:induction false} SeedingDistinctStoresAll(seeds: seq<Achievement>, fails: string -> bool)
    requires UniqueNames(seeds)
    requires forall i :: 0 <= i < |seeds| ==> !fails(seeds[i].name)
    ensures Seeded([], seeds, fails) == seeds
    decreases |seeds|
  {
    if seeds != [] {
      var init := seeds[..|seeds| - 1];
      var last := seeds[|seeds| - 1];
      SeedingDistinctStoresAll(init, fails);
      assert !NameIn(init, last.name) by {
        forall i | 0 <= i < |init| ensures init[i].name != last.name {
          assert init[i] == seeds[i];
        }
      }
      assert init + [last] == seeds;
    }
  }

  /** Seeding an empty table with no failures stores the four seeds in
      order, so reading them back lists the four badges. */
  lemma FreshSeedingListsSeeds()
    ensures Seeded([], InitialAchievements, _ => false) == InitialAchievements
    ensures AllAchievements(Seeded([], InitialAchievements, _ => false)) ==
      [View(InitialAchievements[0]), View(InitialAchievements[1]), View(InitialAchievements[2]), View(InitialAchievements[3])]
  {
    InitialAchievementsWellFormed();
    SeedingDistinctStoresAll(InitialAchievements, _ => false);
  }
}
