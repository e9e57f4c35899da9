/** Publishing an export (`rinex/export.py`): the staged files are moved into the output directory all
    together or not at all, and the manifest states its own size. */
module Export {
  import opened Options

  type Name = string
  type Content = seq<int>
  type Dir = map<Name, Content>

  const OLD_PREFIX: string := ".old-"

  /** Where an earlier export's file is set aside, inside the staging directory. */
  function Old(name: Name): Name { OLD_PREFIX + name }

  lemma OldIsInjective(a: Name, b: Name)
    requires Old(a) == Old(b)
    ensures a == b
  {
    assert a == Old(a)[|OLD_PREFIX|..] == Old(b)[|OLD_PREFIX|..] == b;
  }

  function Names(names: seq<Name>): set<Name> {
    set n | n in names
  }

  lemma InjectiveOn(names: set<Name>)
    ensures forall x, y | x in names && y in names && Old(x) == Old(y) :: x == y
  {
    forall x, y | x in names && y in names && Old(x) == Old(y)
      ensures x == y
    {
      OldIsInjective(x, y);
    }
  }

  /** The copies that setting aside `names` leaves in the staging directory. */
  function Copies(out: Dir, names: set<Name>): Dir
    ensures forall x | x in names && x in out :: Old(x) in Copies(out, names) && Copies(out, names)[Old(x)] == out[x]
    ensures forall m | m in Copies(out, names) :: exists x | x in names && x in out :: Old(x) == m
  {
    InjectiveOn(names);
    map x | x in names && x in out :: Old(x) := out[x]
  }

  /** A file of the export is called like the set-aside copy of another. */
  ghost predicate Collision(out: Dir, names: set<Name>) {
    exists x | x in names && x in out :: Old(x) in names
  }

  /** No name begins like a set-aside copy. Those of an export begin with the station's letters and digits,
      but for the manifest. */
  predicate Plain(names: set<Name>) {
    forall n | n in names :: !(OLD_PREFIX <= n)
  }

  lemma PlainNamesNeverCollide(out: Dir, names: set<Name>)
    requires Plain(names)
    ensures !Collision(out, names) && forall x: Name :: Old(x) !in names
  {
    forall x: Name
      ensures Old(x) !in names
    {
      assert OLD_PREFIX <= Old(x);
    }
  }

  predicate IsExportName(n: Name) {
    n == "manifest.json" || (n != [] && ('0' <= n[0] <= '9' || 'A' <= n[0] <= 'Z' || 'a' <= n[0] <= 'z'))
  }

  lemma ExportNamesArePlain(names: set<Name>)
    requires forall n | n in names :: IsExportName(n)
    ensures Plain(names)
  {
    forall n | n in names
      ensures !(OLD_PREFIX <= n)
    {
      assert OLD_PREFIX[0] == '.' && n[0] != '.';
    }
  }

  /** What stands in the staging directory once all is set aside. */
  function Ready(out: Dir, stage: Dir, names: set<Name>, overwrite: bool): Dir {
    if overwrite then stage + Copies(out, names) else stage
  }

  /** The directory once the files `moved` have come over from `stage`. */
  function With(out: Dir, stage: Dir, moved: set<Name>): Dir {
    out + map n | n in moved && n in stage :: stage[n]
  }

  /** Exactly when no name collides, the staged files stay what they are while others are set aside. */
  lemma StagedFilesSurvive(out: Dir, names: set<Name>)
    ensures !Collision(out, names) <==>
      forall stage: Dir | names <= stage.Keys :: forall n | n in names :: Ready(out, stage, names, true)[n] == stage[n]
  {
    if !Collision(out, names) {
      assert forall n | n in names :: n !in Copies(out, names);
    } else {
      var x :| x in names && x in out && Old(x) in names;
      var other: Content := if out[x] == [] then [0] else [];
      var stage: Dir := map n | n in names :: other;
      assert Ready(out, stage, names, true)[Old(x)] == out[x] != stage[Old(x)];
    }
  }

  lemma Overwritten(out: Dir, ready: Dir, names: set<Name>)
    requires names <= ready.Keys
    ensures var after := With(out, ready, names);
      (forall n | n in names :: n in after && after[n] == ready[n]) && after - names == out - names
  {
    var after := With(out, ready, names);
    assert (after - names).Keys == (out - names).Keys;
    assert forall n | n in after - names :: (after - names)[n] == (out - names)[n];
  }

  /** What a published export comes to: every staged file under its name, every other file untouched. */
  lemma PublishedFiles(out: Dir, stage: Dir, names: set<Name>, overwrite: bool)
    requires names <= stage.Keys && (overwrite ==> !Collision(out, names))
    ensures var after := With(out, Ready(out, stage, names, overwrite), names);
      (forall n | n in names :: n in after && after[n] == stage[n])
      && after - names == out - names
  {
    StagedFilesSurvive(out, names);
    var ready := Ready(out, stage, names, overwrite);
    assert names <= ready.Keys && forall n | n in names :: ready[n] == stage[n];
    hide Ready, Copies, Collision;
    Overwritten(out, ready, names);
  }

  // ------------------------------------------------------------------ one step at a time

  predicate Distinct(names: seq<Name>) {
    forall i, j | 0 <= i < j < |names| :: names[i] != names[j]
  }

  lemma NamesGrow(names: seq<Name>, i: nat)
    requires i < |names|
    ensures names[i] in Names(names) && Names(names[..i] + [names[i]]) == Names(names[..i]) + {names[i]}
    ensures Distinct(names) ==> names[i] !in Names(names[..i])
  {
    assert forall j | 0 <= j < i :: names[..i][j] == names[j];
  }

  lemma OneMoreMoved(out: Dir, stage: Dir, moved: set<Name>, name: Name)
    requires name in stage - moved
    ensures With(out, stage, moved + {name}) == With(out, stage, moved)[name := stage[name]]
    ensures stage - (moved + {name}) == stage - moved - {name}
  {
  }

  lemma NothingMoved(out: Dir, stage: Dir)
    ensures Names([]) == {} && With(out, stage, {}) == out && out - {} == out && stage - {} == stage
  {
  }

  /** Setting aside what is replaced anyway makes no difference to what is there in the end. */
  lemma PublishedAs(out: Dir, stage: Dir, names: set<Name>, overwrite: bool)
    ensures var ready := Ready(out, stage, names, overwrite);
      names <= ready.Keys ==> With(if overwrite then out - names else out, ready, names) == With(out, ready, names)
  {
    hide Ready;
    var ready := Ready(out, stage, names, overwrite);
    if names <= ready.Keys {
      var a, b := With(out - names, ready, names), With(out, ready, names);
      assert a.Keys == b.Keys;
      assert forall n | n in a :: a[n] == b[n];
    }
  }

  /** What can be put back of the set-aside files. */
  function Recoverable(stage: Dir, names: set<Name>): Dir {
    map x | x in names && Old(x) in stage :: stage[Old(x)]
  }

  /** The state that a failure leaves, when `done` had been set aside and `moved` moved. */
  function Undone(out: Dir, stage: Dir, done: set<Name>, moved: set<Name>, overwrite: bool): Dir {
    var ready := Ready(out, stage, done, overwrite);
    var left := With(if overwrite then out - done else out, ready, moved) - moved;
    left + Recoverable(ready - moved, if overwrite then done * out.Keys else {})
  }

  lemma UndoneAt(out: Dir, stage: Dir, done: set<Name>, moved: set<Name>, n: Name)
    requires moved <= done
    ensures var after := Undone(out, stage, done, moved, true);
      (n in after <==> n in out && (n in done ==> Old(n) !in moved)) && (n in after ==> after[n] == out[n])
  {
    var ready := stage + Copies(out, done);
    var left := With(out - done, ready, moved) - moved;
    assert n in left <==> n in out && n !in done;
    assert n in left ==> left[n] == out[n];
    if n in done && n in out {
      assert Old(n) in Copies(out, done) && ready[Old(n)] == out[n];
      assert Old(n) in ready - moved <==> Old(n) !in moved;
    }
  }

  /** On arbitrary names, the one way to lose a file: the set-aside copy of `a` is moved out as a file
      `.old-a` of the same call, the next move fails, and the undo deletes it. */
  lemma CollisionLosesAFile()
    ensures var out: Dir, stage: Dir := map["a" := [1]], map["a" := [2], Old("a") := [3]];
      Undone(out, stage, {"a", Old("a")}, {Old("a")}, true) == map[]
  {
    var out: Dir, stage: Dir := map["a" := [1]], map["a" := [2], Old("a") := [3]];
    var done, moved := {"a", Old("a")}, {Old("a")};
    forall n: Name
      ensures n !in Undone(out, stage, done, moved, true)
    {
      UndoneAt(out, stage, done, moved, n);
    }
  }

  lemma RolledBack(out: Dir, stage: Dir, done: set<Name>, moved: set<Name>, overwrite: bool)
    requires moved <= done && (!overwrite ==> done !! out.Keys)
    ensures Undone(out, stage, done, moved, overwrite) == out
      <==> !overwrite || forall x | x in done && x in out :: Old(x) !in moved
  {
    hide Copies;
    var after := Undone(out, stage, done, moved, overwrite);
    if overwrite {
      hide Undone, Old;
      forall n: Name
        ensures (n in after <==> n in out && (n in done ==> Old(n) !in moved)) && (n in after ==> after[n] == out[n])
      {
        UndoneAt(out, stage, done, moved, n);
      }
    } else {
      var left := With(out, stage, moved) - moved;
      assert left == out;
      assert Recoverable(stage - moved, {}) == map[];
    }
  }

  function Taken(names: set<Name>): set<Name> {
    set x | x in names :: Old(x)
  }

  lemma NothingTaken(stage: Dir)
    ensures Taken({}) == {} && Recoverable(stage, {}) == map[] && stage - {} == stage
  {
  }

  lemma OldStays(done: set<Name>, x: Name)
    ensures Taken(done + {x}) == Taken(done) + {Old(x)}
    ensures Old(x) in Taken(done) ==> x in done
  {
    InjectiveOn(done + {x});
  }

  lemma OneMoreBack(stage: Dir, done: set<Name>, x: Name)
    ensures Taken(done + {x}) == Taken(done) + {Old(x)}
    ensures Old(x) in stage ==> Recoverable(stage, done + {x}) == Recoverable(stage, done)[x := stage[Old(x)]]
    ensures Old(x) !in stage || Old(x) in Taken(done) ==>
      Recoverable(stage, done + {x}) == Recoverable(stage, done) && stage - Taken(done + {x}) == stage - Taken(done)
  {
    OldStays(done, x);
    hide Old, Taken;
    var a, b := Recoverable(stage, done), Recoverable(stage, done + {x});
    if Old(x) in stage {
      assert b.Keys == a.Keys + {x};
    } else {
      assert b.Keys == a.Keys;
    }
    if x in done {
      assert done + {x} == done;
    }
  }

  lemma NothingAside(out: Dir)
    ensures Names([]) == {} && Copies(out, {}) == map[]
  {
  }

  lemma CopyOneMore(out: Dir, done: set<Name>, name: Name)
    ensures name in out && name !in done ==> Copies(out, done + {name}) == Copies(out, done)[Old(name) := out[name]]
    ensures name !in out || name in done ==> Copies(out, done + {name}) == Copies(out, done)
  {
  }

  lemma Overlay(a: Dir, b: Dir, n: Name, c: Content)
    ensures a + b[n := c] == (a + b)[n := c]
  {
  }

  lemma OneMoreAside(out: Dir, stage: Dir, done: seq<Name>, name: Name, aside: seq<Name>)
    requires Names(aside) == Names(done) * out.Keys
    ensures Names(done + [name]) == Names(done) + {name}
    ensures var now, D := out - Names(done), Names(done) + {name};
      if name in now then
        stage + Copies(out, D) == (stage + Copies(out, Names(done)))[Old(name) := now[name]]
        && out - D == now - {name} && Names(aside + [name]) == D * out.Keys
      else
        Copies(out, D) == Copies(out, Names(done)) && out - D == now && Names(aside) == D * out.Keys
  {
    hide Old;
    var now, D := out - Names(done), Names(done) + {name};
    assert Names(done + [name]) == D;
    assert Names(aside + [name]) == Names(aside) + {name};
    CopyOneMore(out, Names(done), name);
    hide Copies, Names;
    if name in now {
      Overlay(stage, Copies(out, Names(done)), Old(name), out[name]);
    }
  }

  lemma PlainIsPublished(out: Dir, stage: Dir, names: set<Name>, overwrite: bool)
    ensures var ready := Ready(out, stage, names, overwrite);
      Plain(names) && names <= ready.Keys ==>
        var after := With(out, ready, names);
        (forall n | n in names :: n in after && n in stage && after[n] == stage[n]) && after - names == out - names
  {
    if Plain(names) && names <= Ready(out, stage, names, overwrite).Keys {
      PlainNamesNeverCollide(out, names);
      assert names <= stage.Keys;
      PublishedFiles(out, stage, names, overwrite);
    }
  }

  lemma PlainIsRestored(out: Dir, names: set<Name>, moved: set<Name>)
    requires moved <= names
    ensures Plain(names) ==> forall x | x in names && x in out :: Old(x) !in moved
  {
    if Plain(names) {
      PlainNamesNeverCollide(out, names);
    }
  }

  /** With such names the undo always restores the directory. */
  lemma PlainUndoRestores(out: Dir, stage: Dir, done: set<Name>, moved: set<Name>, overwrite: bool)
    requires moved <= done && Plain(done) && (!overwrite ==> done !! out.Keys)
    ensures Undone(out, stage, done, moved, overwrite) == out
  {
    RolledBack(out, stage, done, moved, overwrite);
    PlainIsRestored(out, done, moved);
  }

  // ------------------------------------------------------------------ the two directories

  datatype Outcome = Published | Refused | Failed

  class Directories {
    var out: Dir
    var stage: Dir

    constructor (out: Dir, stage: Dir)
      ensures this.out == out && this.stage == stage
    {
      this.out, this.stage := out, stage;
    }

    /** `os.replace` within or between the two directories fails at the step that `failAt` names. */
    method SetAside(names: seq<Name>, failAt: Option<nat>) returns (ok: bool, aside: seq<Name>, ghost k: nat)
      modifies this
      ensures k <= |names| && (ok ==> k == |names|) && (failAt.None? ==> ok)
      ensures out == old(out) - Names(names[..k]) && stage == old(stage) + Copies(old(out), Names(names[..k]))
      ensures Names(aside) == Names(names[..k]) * old(out).Keys
      ensures ok && failAt.Some? ==> |aside| <= failAt.value
    {
      hide Names, Copies;
      aside, k := [], 0;
      NothingAside(old(out));
      ghost var out0, stage0 := out, stage;
      assert out == out0 - {} && stage == stage0 + map[];
      for i := 0 to |names|
        invariant k == i && out == out0 - Names(names[..i]) && stage == stage0 + Copies(out0, Names(names[..i]))
        invariant Names(aside) == Names(names[..i]) * out0.Keys
        invariant failAt.Some? ==> |aside| <= failAt.value
      {
        var name := names[i];
        assert names[..i + 1] == names[..i] + [name];
        OneMoreAside(out0, stage0, names[..i], name, aside);
        if name in out {
          if failAt == Some(|aside|) {
            return false, aside, k;
          }
          stage := stage[Old(name) := out[name]];
          out := out - {name};
          aside := aside + [name];
        }
        k := i + 1;
      }
      return true, aside, k;
    }

    method MoveOut(names: seq<Name>, step: nat, failAt: Option<nat>) returns (ok: bool, moved: seq<Name>)
      modifies this
      ensures moved <= names && (ok ==> moved == names)
      ensures Names(moved) <= old(stage).Keys
      ensures out == With(old(out), old(stage), Names(moved))
      ensures stage == old(stage) - Names(moved)
      ensures failAt.None? && Names(names) <= old(stage).Keys && Distinct(names) ==> ok
    {
      hide Names, With, Distinct;
      moved := [];
      ghost var out0, stage0 := out, stage;
      assert names[..0] == [];
      NothingMoved(out, stage);
      for i := 0 to |names|
        invariant moved == names[..i]
        invariant Names(moved) <= stage0.Keys
        invariant out == With(out0, stage0, Names(moved))
        invariant stage == stage0 - Names(moved)
      {
        var name := names[i];
        assert names[..i + 1] == moved + [name];
        NamesGrow(names, i);
        if failAt == Some(step + i) || name !in stage {
          return false, moved;
        }
        OneMoreMoved(out0, stage0, Names(moved), name);
        out := out[name := stage[name]];
        stage := stage - {name};
        moved := moved + [name];
      }
      assert names[..|names|] == names;
      return true, moved;
    }

    method Delete(moved: seq<Name>)
      modifies `out
      ensures out == old(out) - Names(moved)
    {
      for i := 0 to |moved|
        invariant out == old(out) - Names(moved[..i])
      {
        assert moved[..i + 1] == moved[..i] + [moved[i]];
        assert Names(moved[..i + 1]) == Names(moved[..i]) + {moved[i]};
        out := out - {moved[i]};
      }
      assert moved[..|moved|] == moved;
    }

    /** What was set aside goes back where it came from - if it is still there. */
    method PutBack(aside: seq<Name>)
      modifies this
      ensures out == old(out) + Recoverable(old(stage), Names(aside))
    {
      hide Recoverable, Taken;
      ghost var stage0 := stage;
      NothingTaken(stage);
      assert aside[..0] == [] && Names([]) == {};
      for i := 0 to |aside|
        invariant out == old(out) + Recoverable(stage0, Names(aside[..i]))
        invariant stage == stage0 - Taken(Names(aside[..i]))
      {
        var x := aside[i];
        assert aside[..i + 1] == aside[..i] + [x];
        assert Names(aside[..i + 1]) == Names(aside[..i]) + {x};
        OneMoreBack(stage0, Names(aside[..i]), x);
        if Old(x) in stage {
          out := out[x := stage[Old(x)]];
          stage := stage - {Old(x)};
        }
      }
      assert aside[..|aside|] == aside;
    }

    /** The whole export is published, or nothing is: a failure leaves `out` exactly as it was, if and only
        if no earlier file's set-aside copy was itself moved out as a file of the export. */
    method Publish(names: seq<Name>, overwrite: bool, failAt: Option<nat>) returns (r: Outcome, ghost moved: seq<Name>)
      modifies this
      ensures r.Refused? <==> !overwrite && exists n | n in names :: n in old(out)
      ensures r.Refused? ==> out == old(out) && stage == old(stage)
      ensures r.Published? ==>
        var ready := Ready(old(out), old(stage), Names(names), overwrite);
        Names(names) <= ready.Keys && out == With(old(out), ready, Names(names))
      ensures moved <= names
      ensures r.Failed? ==>
        (out == old(out) <==> !overwrite || forall x | x in Names(names) && x in old(out) :: Old(x) !in Names(moved))
      // the whole export or nothing, wherever the failure
      ensures Plain(Names(names)) && !r.Published? ==> out == old(out)
      ensures Plain(Names(names)) && r.Published? ==>
        (forall n | n in names :: n in out && n in old(stage) && out[n] == old(stage)[n])
        && out - Names(names) == old(out) - Names(names)
      ensures !r.Refused? && failAt.None? && Names(names) <= old(stage).Keys && Distinct(names) ==> r.Published?
    {
      hide Copies, Recoverable, With;
      moved := [];
      if !overwrite && exists n | n in names :: n in out {
        return Refused, moved;
      }
      ghost var out0, stage0 := out, stage;
      var ok, aside := true, [];
      ghost var done := Names(names);
      if overwrite {
        ghost var k;
        ok, aside, k := SetAside(names, failAt);
        done := Names(names[..k]);
        assert names[..|names|] == names;
      }
      NothingMoved(out, stage);
      ghost var out1, stage1 := out, stage;
      if ok {
        var sofar;
        ok, sofar := MoveOut(names, |aside|, failAt);
        moved := sofar;
        if ok {
          PublishedAs(out0, stage0, Names(names), overwrite);
          PlainIsPublished(out0, stage0, Names(names), overwrite);
          return Published, moved;
        }
        Delete(sofar);
      }
      PutBack(aside);
      RolledBack(out0, stage0, done, Names(moved), overwrite);
      PlainIsRestored(out0, Names(names), Names(moved));
      return Failed, moved;
    }
  }

  // ------------------------------------------------------------------ the manifest's own size

  function Digits(n: nat): (d: nat)
    ensures d >= 1
  {
    if n < 10 then 1 else 1 + Digits(n / 10)
  }

  function Pow10(e: nat): (p: nat)
    ensures p >= 1 && p > e
  {
    if e == 0 then 1 else 10 * Pow10(e - 1)
  }

  lemma {:induction false} DigitsBound(n: nat)
    ensures n < Pow10(Digits(n))
    ensures n >= 10 ==> Pow10(Digits(n) - 1) <= n
  {
    if n >= 10 {
      DigitsBound(n / 10);
      if n / 10 < 10 {
        assert Pow10(1) == 10 * Pow10(0) == 10;
      }
    }
  }

  lemma {:induction false} DigitsGrow(m: nat, n: nat)
    requires m <= n
    ensures Digits(m) <= Digits(n)
    decreases n
  {
    if m >= 10 {
      DigitsGrow(m / 10, n / 10);
    }
  }

  lemma {:induction false} BelowPower(n: nat, e: nat)
    requires e >= 1 && n < Pow10(e)
    ensures Digits(n) <= e
    decreases e
  {
    assert Pow10(1) == 10 * Pow10(0) == 10;
    if n >= 10 && e > 1 {
      BelowPower(n / 10, e - 1);
    }
  }

  /** Adding fewer than nine tenths of its power of ten gives a number at most one more digit. */
  lemma {:induction false} DigitsOfSum(n: nat, more: nat)
    requires more <= Digits(n)
    ensures Digits(n + more) <= Digits(n) + 1
    ensures Digits(n + more) == Digits(n) + 1 ==> Digits(n + more + 1) == Digits(n + more)
  {
    var d := Digits(n);
    DigitsBound(n);
    assert Pow10(d) > d;
    BelowPower(n + more, d + 1);
    BelowPower(n + more + 1, d + 1);
    DigitsGrow(n + more, n + more + 1);
  }

  /** The manifest lists itself with its own size, `text` being the length of all of it but the digits of
      that size. Ten rounds are allowed; the fourth always agrees, and what it finds is the least size
      that is right, so the failure branch is dead. */
  method ManifestSize(text: nat) returns (settled: bool, size: nat, rounds: nat)
    ensures settled && rounds <= 4
    ensures size == text + Digits(size)
    ensures forall m: nat :: m == text + Digits(m) ==> size <= m
  {
    size, rounds, settled := 0, 0, false;
    while rounds < 10 && !settled
      invariant rounds <= 4 && (settled ==> size == text + Digits(size))
      invariant forall m: nat :: m == text + Digits(m) ==> size <= m
      invariant !settled ==> match rounds
                             case 0 => size == 0
                             case 1 => size == text + 1
                             case 2 => size == text + Digits(text + 1) && Digits(text + 1) > 1
                             case 3 => size == text + Digits(text + 1) + 1 && Digits(size) == Digits(text + 1) + 1
                             case _ => false
    {
      var length := text + Digits(size);
      forall m: nat | m == text + Digits(m)
        ensures length <= m
      {
        DigitsGrow(size, m);
      }
      rounds := rounds + 1;
      if length == size {
        settled := true;
      } else {
        if rounds == 3 {
          DigitsOfSum(text + 1, Digits(text + 1) - 1);
          DigitsGrow(text + 1, size);
        }
        size := length;
      }
    }
  }
}
