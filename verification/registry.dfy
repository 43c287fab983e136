/**
 * The state the Peitek importer keeps between calls (utils/ogama.py:337-357,
 * 439-442): the trial-name-to-id map with its counter, and the subjects
 * already inserted into `Subjects`. The program keeps both in module-level
 * variables; here they are an explicit value threaded through the calls.
 */
module Registry {
  import opened Seqs

  datatype Registry = Registry(ids: map<string, int>, next: int, subjects: seq<string>)

  /**
   * The ids handed out so far are pairwise different and below the counter,
   * so the next fresh id cannot collide with one of them; no subject is
   * recorded twice.
   */
  predicate Consistent(st: Registry) {
    && (forall n :: n in st.ids ==> st.ids[n] < st.next)
    && (forall a, b :: a in st.ids && b in st.ids && a != b ==> st.ids[a] != st.ids[b])
    && NoDuplicates(st.subjects)
  }

  /** A state before any import, with the counter starting at `first`. */
  function Initial(first: int): (st: Registry)
    ensures Consistent(st)
    ensures forall n :: n !in st.ids
  {
    Registry(map[], first, [])
  }

  /**
   * The trial id of a task: a known task keeps its id and nothing changes;
   * an unseen task receives the counter, which then advances by one.
   */
  function AllocateTrialId(st: Registry, name: string): (r: (Registry, int))
    ensures name in r.0.ids && r.0.ids[name] == r.1
    ensures name in st.ids ==> r.1 == st.ids[name] && r.0 == st
    ensures name !in st.ids ==> r.1 == st.next && r.0.next == st.next + 1
    ensures r.0.ids.Keys == st.ids.Keys + {name}
    ensures r.0.ids == st.ids[name := r.1]
    ensures forall n :: n in st.ids ==> r.0.ids[n] == st.ids[n]
    ensures r.0.subjects == st.subjects
    ensures Consistent(st) ==> Consistent(r.0)
    ensures Consistent(st) ==> forall n :: n in st.ids && n != name ==> st.ids[n] != r.1
  {
    if name in st.ids then (st, st.ids[name])
    else (st.(ids := st.ids[name := st.next], next := st.next + 1), st.next)
  }

  /** The state after allocating ids for `names` in order. */
  function AllocateAll(st: Registry, names: seq<string>): Registry {
    if |names| == 0 then st
    else AllocateTrialId(AllocateAll(st, names[..|names| - 1]), names[|names| - 1]).0
  }

  /**
   * Starting without ids, the task names receive consecutive ids from
   * `first` in order of first appearance, and the counter ends past the
   * last of them.
   */
  lemma {:induction false} AllocateAllNumbersFirstAppearances(first: int, names: seq<string>)
    ensures var st := AllocateAll(Initial(first), names);
      var d := Distinct(names);
      && st.next == first + |d|
      && (forall n :: n in st.ids <==> n in names)
      && (forall k :: 0 <= k < |d| ==> d[k] in st.ids && st.ids[d[k]] == first + k)
  {
    if |names| > 0 {
      var init, x := names[..|names| - 1], names[|names| - 1];
      assert names == init + [x];
      AllocateAllNumbersFirstAppearances(first, init);
      var prev := AllocateAll(Initial(first), init);
      var d := Distinct(init);
      if x in d {
        assert x in prev.ids;
      } else {
        assert x !in prev.ids;
        assert Distinct(names) == d + [x];
      }
    }
  }

  /**
   * `INSERT OR IGNORE INTO Subjects` guarded by the `added_subjects` list:
   * the subject is inserted exactly when it has not been recorded before.
   */
  function RegisterSubject(st: Registry, subject: string): (r: (Registry, bool))
    ensures r.1 <==> subject !in st.subjects
    ensures subject in r.0.subjects
    ensures r.0.subjects == st.subjects + (if r.1 then [subject] else [])
    ensures r.0.ids == st.ids && r.0.next == st.next
    ensures Consistent(st) ==> Consistent(r.0)
  {
    if subject in st.subjects then (st, false)
    else (st.(subjects := st.subjects + [subject]), true)
  }

  /** The state after registering `names` in order. */
  function RegisterAll(st: Registry, names: seq<string>): Registry {
    if |names| == 0 then st
    else RegisterSubject(RegisterAll(st, names[..|names| - 1]), names[|names| - 1]).0
  }

  lemma {:induction false} DistinctOfNoDuplicates<T(!new)>(s: seq<T>)
    requires NoDuplicates(s)
    ensures Distinct(s) == s
  {
    if |s| > 0 {
      DistinctOfNoDuplicates(s[..|s| - 1]);
      assert s[|s| - 1] !in s[..|s| - 1];
    }
  }

  /**
   * Over any series of imports each subject is inserted at most once: the
   * recorded subjects are the distinct names seen, in order of first
   * appearance.
   */
  lemma {:induction false} RegisterAllDistinct(st: Registry, names: seq<string>)
    requires NoDuplicates(st.subjects)
    ensures RegisterAll(st, names).subjects == Distinct(st.subjects + names)
  {
    if |names| == 0 {
      assert st.subjects + names == st.subjects;
      DistinctOfNoDuplicates(st.subjects);
    } else {
      var init, x := names[..|names| - 1], names[|names| - 1];
      RegisterAllDistinct(st, init);
      var all := st.subjects + names;
      assert all[..|all| - 1] == st.subjects + init;
      assert all[|all| - 1] == x;
    }
  }
}
