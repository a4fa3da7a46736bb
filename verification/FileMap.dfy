/**
 What the file store means to its users: a map from names to contents.  Any script of create, write,
 read and delete requests run against the code of FileStore gives the answers of that map.
 */
module FileMap {
  import opened Memory
  import opened Options
  import opened FileStore

  type Name = seq<byte>
  /** `None` for a file without data: never written, or lost in a failed write. */
  type View = map<Name, Option<seq<byte>>>

  const NAME_LIMIT: int := MAX_FILENAME - 1

  ghost predicate Distinct(s: seq<Slot>) {
    forall i, j :: 0 <= i < j < |s| && s[i].Used? && s[j].Used? ==> s[i].name != s[j].name
  }

  ghost function Names(s: seq<Slot>): set<Name> {
    set i | 0 <= i < |s| && s[i].Used? :: s[i].name
  }

  ghost function ViewOf(s: seq<Slot>): View {
    map n | n in Names(s) :: ContentsOf(s, n)
  }

  ghost function ContentsOf(s: seq<Slot>, n: Name): Option<seq<byte>> {
    if Find(s, n) < |s| then s[Find(s, n)].contents else None
  }

  lemma FindExact(s: seq<Slot>, n: Name)
    ensures Find(s, n) < |s| <==> n in Names(s)
  {
  }

  lemma FindOwn(s: seq<Slot>, i: nat)
    requires Distinct(s) && i < |s| && s[i].Used?
    ensures Find(s, s[i].name) == i
  {
  }

  lemma NamesChanged(s: seq<Slot>, i: nat, t: Slot)
    requires Distinct(s) && i < |s| && (t.Used? ==> t.name !in Names(s) || (s[i].Used? && t.name == s[i].name))
    ensures Distinct(s[i := t])
    ensures Names(s[i := t]) == Names(s) - (if s[i].Used? then {s[i].name} else {}) + (if t.Used? then {t.name} else {})
  {
    hide Find;
    var r := s[i := t];
    forall n | n in Names(s) && (s[i].Used? ==> n != s[i].name) ensures n in Names(r) {
      var j :| 0 <= j < |s| && s[j].Used? && s[j].name == n;
      assert r[j] == s[j];
    }
    assert t.Used? ==> r[i].name in Names(r);
    forall n | n in Names(r) && (t.Used? ==> n != t.name) ensures n in Names(s) && (s[i].Used? ==> n != s[i].name) {
      var j :| 0 <= j < |r| && r[j].Used? && r[j].name == n;
      assert r[j] == s[j];
    }
  }

  lemma ContentsChanged(s: seq<Slot>, i: nat, t: Slot, n: Name)
    requires i < |s| && Distinct(s) && Distinct(s[i := t]) && n in Names(s[i := t])
    ensures ContentsOf(s[i := t], n) == if t.Used? && n == t.name then t.contents else ContentsOf(s, n)
  {
    var r := s[i := t];
    var j :| 0 <= j < |r| && r[j].Used? && r[j].name == n;
    FindOwn(r, j);
    if j != i {
      FindOwn(s, j);
      assert r[i] == t && s[j] == r[j];
    }
  }

  /** The entry of a slot, as a map. */
  ghost function Entry(t: Slot): View {
    if t.Used? then map[t.name := t.contents] else map[]
  }

  /** Changing one slot (a new file, new contents, a deletion) changes the map at its name only. */
  lemma ViewChanged(s: seq<Slot>, i: nat, t: Slot)
    requires Distinct(s) && i < |s| && (t.Used? ==> t.name !in Names(s) || (s[i].Used? && t.name == s[i].name))
    ensures Distinct(s[i := t])
    ensures ViewOf(s[i := t]) == ViewOf(s) - Entry(s[i]).Keys + Entry(t)
  {
    hide Find, ContentsOf, Distinct, Names;
    NamesChanged(s, i, t);
    var r := s[i := t];
    var v := ViewOf(s) - Entry(s[i]).Keys + Entry(t);
    assert ViewOf(r).Keys == v.Keys;
    forall m | m in Names(r) ensures ViewOf(r)[m] == v[m] {
      ContentsChanged(s, i, t, m);
    }
  }

  lemma {:induction false} NamesCounted(s: seq<Slot>)
    requires Distinct(s)
    ensures |Names(s)| == UsedCount(s)
  {
    if s != [] {
      var t := s[..|s| - 1];
      NamesCounted(t);
      if s[|s| - 1].Used? {
        assert s[|s| - 1].name !in Names(t);
        assert Names(s) == Names(t) + {s[|s| - 1].name};
      } else {
        assert Names(s) == Names(t);
      }
    }
  }

  lemma {:induction false} AllUsed(s: seq<Slot>)
    requires forall i :: 0 <= i < |s| ==> s[i].Used?
    ensures UsedCount(s) == |s|
  {
    if s != [] { AllUsed(s[..|s| - 1]); }
  }

  // ---- Long names ----

  ghost function StoredName(n: Name): Name {
    n[..Min(|n|, NAME_LIMIT)]
  }

  /** Creating a file `n` (absent so far, with a slot to spare) keeps the names distinct in every table. */
  ghost predicate KeepsDistinct(n: Name, kind: FileType) {
    forall s :: |s| == 64 && Distinct(s) && n !in Names(s) && FirstUnused(s) < |s|
                ==> Distinct(s[FirstUnused(s) := Used(StoredName(n), kind, None)])
  }

  /** The duplicate check sees the whole name but the slot keeps 31 characters: safe exactly up to 31. */
  lemma DuplicateCheckExact(n: Name, kind: FileType)
    ensures KeepsDistinct(n, kind) <==> |n| <= 31
  {
    hide Find;
    if |n| <= NAME_LIMIT {
      assert StoredName(n) == n;
      forall s | |s| == MAX_FILES && Distinct(s) && n !in Names(s) && FirstUnused(s) < |s|
        ensures Distinct(s[FirstUnused(s) := Used(StoredName(n), kind, None)])
      {
        NamesChanged(s, FirstUnused(s), Used(n, kind, None));
      }
    } else {
      var u := Used(StoredName(n), kind, None);
      var s := [u] + seq(MAX_FILES - 1, _ => Unused);
      var i := FirstUnused(s);
      assert s[0].Used? && s[1].Unused?;
      assert i == 1;
      var r := s[i := u];
      assert r[0] == u && r[1] == u;
      assert |s| == MAX_FILES && Distinct(s) && n !in Names(s);
      assert !Distinct(r);
    }
  }
}
