/** Checkpoint save and load of the base RL agent, as in-memory maps. The
    agent's `checkpoint_modules` and a saved checkpoint are Python dicts, kept
    here as insertion-ordered lists of (name, value) pairs so that loading
    visits the checkpoint's entries in the order Python does. */
module Checkpoints {
  import opened Results

  /** A module registered for checkpointing: its parameter state `S`, which of
      `state_dict`, `load_state_dict` and `eval` it has, and its training flag. */
  datatype Module<S> = Module(state: S, hasStateDict: bool, hasLoadStateDict: bool, hasEval: bool, training: bool)

  /** What `save_ckpt` stores for one module: its state dict when it has one,
      otherwise the module object itself. */
  datatype Saved<S> = StateDict(state: S) | Whole(instance: Module<S>)

  /** An insertion-ordered Python dict with string keys. */
  type Dict<V> = seq<(string, V)>

  /** The keys of a dict, in insertion order. */
  function Names<V>(d: Dict<V>): (r: seq<string>)
    ensures |r| == |d|
    ensures forall i :: 0 <= i < |d| ==> r[i] == d[i].0
  {
    seq(|d|, i requires 0 <= i < |d| => d[i].0)
  }

  /** No key occurs twice, as in every Python dict. */
  predicate DistinctNames<V>(d: Dict<V>)
  {
    forall i, j :: 0 <= i < j < |d| ==> d[i].0 != d[j].0
  }

  /** `dict.get(name, None)`. */
  function Lookup<V>(d: Dict<V>, name: string): (r: Option<V>)
    ensures r.Some? <==> name in Names(d)
    ensures DistinctNames(d) ==> forall i :: 0 <= i < |d| && d[i].0 == name ==> r == Some(d[i].1)
    decreases |d|
  {
    if |d| == 0 then None
    else if d[0].0 == name then Some(d[0].1)
    else
      assert Names(d) == [d[0].0] + Names(d[1..]);
      Lookup(d[1..], name)
  }

  /** The dict with the value under an existing key replaced in place. */
  function Assign<V>(d: Dict<V>, name: string, v: V): (r: Dict<V>)
    ensures Names(r) == Names(d)
    ensures name in Names(d) ==> Lookup(r, name) == Some(v)
    ensures forall other :: other != name ==> Lookup(r, other) == Lookup(d, other)
    decreases |d|
  {
    if |d| == 0 then []
    else
      var head := if d[0].0 == name then (name, v) else d[0];
      assert Names(d) == [d[0].0] + Names(d[1..]);
      var r := [head] + Assign(d[1..], name, v);
      assert Names(r) == [head.0] + Names(Assign(d[1..], name, v));
      assert r[1..] == Assign(d[1..], name, v);
      r
  }

  /** `_get_internal_value`. */
  function InternalValue<S>(m: Module<S>): (r: Saved<S>)
    ensures r.StateDict? <==> m.hasStateDict
    ensures r.StateDict? ==> r.state == m.state
  {
    if m.hasStateDict then StateDict(m.state) else Whole(m)
  }

  /** `save_ckpt` without the file write: one entry per registered module,
      under the same name and in the same order. */
  function Save<S>(modules: Dict<Module<S>>): (ckpt: Dict<Saved<S>>)
    ensures Names(ckpt) == Names(modules)
    ensures forall i :: 0 <= i < |modules| ==> ckpt[i].1 == InternalValue(modules[i].1)
  {
    seq(|modules|, i requires 0 <= i < |modules| => (modules[i].0, InternalValue(modules[i].1)))
  }

  /** The two ways a load can raise: a registered module without
      `load_state_dict` (`NotImplementedError`), or an entry that holds a whole
      module object where `load_state_dict` expects a state dict. */
  datatype LoadError = NotImplemented(name: string) | NotAStateDict(name: string)

  /** How `load_ckpt` ends. A raise leaves the modules loaded before it in
      place, as Python's in-place `load_state_dict` calls do; `warnings` are
      the names logged as having no live module, in the order logged. */
  datatype LoadOutcome<S> =
    | Completed(modules: Dict<Module<S>>, warnings: seq<string>)
    | Raised(modules: Dict<Module<S>>, warnings: seq<string>, error: LoadError)

  /** What `torch.load` returned: a dict of entries, or some other object,
      which `load_ckpt` ignores. */
  datatype CheckpointFile<S> = DictFile(entries: Dict<Saved<S>>) | OtherObject

  /** `load_state_dict(state)` followed by `eval()` when the module has it. */
  function LoadInto<S>(m: Module<S>, s: S): (r: Module<S>)
    ensures r.state == s
    ensures r.hasStateDict == m.hasStateDict && r.hasLoadStateDict == m.hasLoadStateDict && r.hasEval == m.hasEval
    ensures r.training == (m.training && !m.hasEval)
  {
    m.(state := s, training := if m.hasEval then false else m.training)
  }

  /** Logs a warning ahead of whatever the rest of the load produced. */
  function Warned<S>(name: string, rest: LoadOutcome<S>): (r: LoadOutcome<S>)
    ensures r.modules == rest.modules && r.warnings == [name] + rest.warnings
    ensures r.Completed? == rest.Completed?
    ensures r.Raised? ==> r.error == rest.error
  {
    match rest
    case Completed(ms, ws) => Completed(ms, [name] + ws)
    case Raised(ms, ws, e) => Raised(ms, [name] + ws, e)
  }

  /** The loop of `load_ckpt` over the checkpoint's entries. */
  function LoadEntries<S>(modules: Dict<Module<S>>, entries: Dict<Saved<S>>): (r: LoadOutcome<S>)
    ensures Names(r.modules) == Names(modules)
    decreases |entries|
  {
    if |entries| == 0 then Completed(modules, [])
    else
      var (name, data) := entries[0];
      match Lookup(modules, name)
      case None => Warned(name, LoadEntries(modules, entries[1..]))
      case Some(m) =>
        if !m.hasLoadStateDict then Raised(modules, [], NotImplemented(name))
        else match data
          case Whole(_) => Raised(modules, [], NotAStateDict(name))
          case StateDict(s) => LoadEntries(Assign(modules, name, LoadInto(m, s)), entries[1..])
  }

  /** `load_ckpt` without the file read. */
  function Load<S>(modules: Dict<Module<S>>, file: CheckpointFile<S>): (r: LoadOutcome<S>)
    ensures Names(r.modules) == Names(modules)
    ensures file.OtherObject? ==> r == Completed(modules, [])
  {
    match file
    case DictFile(entries) => LoadEntries(modules, entries)
    case OtherObject => Completed(modules, [])
  }

  /** The entries naming no live module, in checkpoint order. */
  function Unmatched<S>(modules: Dict<Module<S>>, entries: Dict<Saved<S>>): seq<string>
    decreases |entries|
  {
    if |entries| == 0 then []
    else (if entries[0].0 in Names(modules) then [] else [entries[0].0]) + Unmatched(modules, entries[1..])
  }

  /** Every entry naming a live module can be loaded into it. */
  predicate Loadable<S>(modules: Dict<Module<S>>, entries: Dict<Saved<S>>)
  {
    forall i :: 0 <= i < |entries| && Lookup(modules, entries[i].0).Some? ==>
      Lookup(modules, entries[i].0).value.hasLoadStateDict && entries[i].1.StateDict?
  }

  /** Loading one module keeps every module's capabilities. */
  lemma LoadKeepsCapabilities<S>(modules: Dict<Module<S>>, name: string, m: Module<S>, s: S, other: string)
    requires Lookup(modules, name) == Some(m)
    ensures var after := Lookup(Assign(modules, name, LoadInto(m, s)), other);
      && after.Some? == Lookup(modules, other).Some?
      && (after.Some? ==> after.value.hasLoadStateDict == Lookup(modules, other).value.hasLoadStateDict)
  {
  }

  /** A load completes exactly when every entry naming a live module can be
      loaded into it; otherwise it raises. When it completes, the warnings are
      the unmatched names in checkpoint order. */
  lemma {:induction false} LoadCompletesIffLoadable<S>(modules: Dict<Module<S>>, entries: Dict<Saved<S>>)
    ensures LoadEntries(modules, entries).Completed? <==> Loadable(modules, entries)
    ensures LoadEntries(modules, entries).Completed? ==> LoadEntries(modules, entries).warnings == Unmatched(modules, entries)
    decreases |entries|
  {
    if |entries| > 0 {
      var (name, data) := entries[0];
      var rest := entries[1..];
      match Lookup(modules, name)
      case None =>
        LoadCompletesIffLoadable(modules, rest);
        LoadableSplit(modules, entries);
      case Some(m) =>
        if m.hasLoadStateDict && data.StateDict? {
          var after := Assign(modules, name, LoadInto(m, data.state));
          LoadCompletesIffLoadable(after, rest);
          LoadableSplit(modules, entries);
          forall other {
            LoadKeepsCapabilities(modules, name, m, data.state, other);
          }
          assert Loadable(after, rest) <==> Loadable(modules, rest);
          assert Names(after) == Names(modules);
          UnmatchedSameNames(after, modules, rest);
        } else {
          assert !Loadable(modules, entries) by {
            assert Lookup(modules, entries[0].0).Some?;
          }
        }
    }
  }

  /** A raised load names its culprit: an entry for a live module that has no
      `load_state_dict` (`NotImplementedError`), or one holding a whole module
      object instead of a state dict. */
  lemma {:induction false} RaisedNamesCulprit<S>(modules: Dict<Module<S>>, entries: Dict<Saved<S>>)
    ensures var r := LoadEntries(modules, entries);
      r.Raised? ==>
        exists i :: 0 <= i < |entries| && entries[i].0 == r.error.name
          && Lookup(modules, entries[i].0).Some?
          && (r.error.NotImplemented? ==> !Lookup(modules, entries[i].0).value.hasLoadStateDict)
          && (r.error.NotAStateDict? ==> entries[i].1.Whole?)
    decreases |entries|
  {
    if |entries| > 0 {
      var (name, data) := entries[0];
      var rest := entries[1..];
      var r := LoadEntries(modules, entries);
      match Lookup(modules, name)
      case None =>
        RaisedNamesCulprit(modules, rest);
        if r.Raised? {
          var i :| 0 <= i < |rest| && rest[i].0 == r.error.name
            && Lookup(modules, rest[i].0).Some?
            && (r.error.NotImplemented? ==> !Lookup(modules, rest[i].0).value.hasLoadStateDict)
            && (r.error.NotAStateDict? ==> rest[i].1.Whole?);
          assert entries[i + 1] == rest[i];
        }
      case Some(m) =>
        if m.hasLoadStateDict && data.StateDict? {
          var after := Assign(modules, name, LoadInto(m, data.state));
          RaisedNamesCulprit(after, rest);
          if r.Raised? {
            var i :| 0 <= i < |rest| && rest[i].0 == r.error.name
              && Lookup(after, rest[i].0).Some?
              && (r.error.NotImplemented? ==> !Lookup(after, rest[i].0).value.hasLoadStateDict)
              && (r.error.NotAStateDict? ==> rest[i].1.Whole?);
            LoadKeepsCapabilities(modules, name, m, data.state, rest[i].0);
            assert entries[i + 1] == rest[i];
          }
        } else {
          assert entries[0].0 == r.error.name;
        }
    }
  }

  /** `Loadable` splits into the first entry and the rest. */
  lemma LoadableSplit<S>(modules: Dict<Module<S>>, entries: Dict<Saved<S>>)
    requires |entries| > 0
    ensures Loadable(modules, entries) <==>
      && (Lookup(modules, entries[0].0).Some? ==>
            Lookup(modules, entries[0].0).value.hasLoadStateDict && entries[0].1.StateDict?)
      && Loadable(modules, entries[1..])
  {
    var rest := entries[1..];
    if Loadable(modules, entries) {
      forall i | 0 <= i < |rest| && Lookup(modules, rest[i].0).Some?
        ensures Lookup(modules, rest[i].0).value.hasLoadStateDict && rest[i].1.StateDict?
      {
        assert rest[i] == entries[i + 1];
      }
    }
    if Loadable(modules, rest) && (Lookup(modules, entries[0].0).Some? ==>
         Lookup(modules, entries[0].0).value.hasLoadStateDict && entries[0].1.StateDict?) {
      forall i | 0 <= i < |entries| && Lookup(modules, entries[i].0).Some?
        ensures Lookup(modules, entries[i].0).value.hasLoadStateDict && entries[i].1.StateDict?
      {
        if i > 0 {
          assert entries[i] == rest[i - 1];
        }
      }
    }
  }

  /** `Unmatched` depends only on the live names. */
  lemma {:induction false} UnmatchedSameNames<S>(a: Dict<Module<S>>, b: Dict<Module<S>>, entries: Dict<Saved<S>>)
    requires Names(a) == Names(b)
    ensures Unmatched(a, entries) == Unmatched(b, entries)
    decreases |entries|
  {
    if |entries| > 0 {
      UnmatchedSameNames(a, b, entries[1..]);
    }
  }

  /** Modules the checkpoint does not name come out of a load unchanged,
      whether it completes or raises. */
  lemma {:induction false} LoadLeavesUnnamed<S>(modules: Dict<Module<S>>, entries: Dict<Saved<S>>, other: string)
    requires other !in Names(entries)
    ensures Lookup(LoadEntries(modules, entries).modules, other) == Lookup(modules, other)
    decreases |entries|
  {
    if |entries| > 0 {
      assert Names(entries) == [entries[0].0] + Names(entries[1..]);
      var (name, data) := entries[0];
      match Lookup(modules, name)
      case None =>
        LoadLeavesUnnamed(modules, entries[1..], other);
      case Some(m) =>
        if m.hasLoadStateDict && data.StateDict? {
          LoadLeavesUnnamed(Assign(modules, name, LoadInto(m, data.state)), entries[1..], other);
        }
    }
  }

  /** Loading distinct-named state dicts for live, loadable modules completes
      without warnings, gives every named module its entry's state, and leaves
      the other modules as they were. */
  lemma {:induction false} LoadStateDicts<S>(modules: Dict<Module<S>>, entries: Dict<Saved<S>>)
    requires DistinctNames(entries)
    requires forall i :: 0 <= i < |entries| ==>
      entries[i].1.StateDict? && Lookup(modules, entries[i].0).Some? && Lookup(modules, entries[i].0).value.hasLoadStateDict
    ensures LoadEntries(modules, entries).Completed?
    ensures LoadEntries(modules, entries).warnings == []
    ensures forall i :: 0 <= i < |entries| ==>
      var after := Lookup(LoadEntries(modules, entries).modules, entries[i].0);
      after.Some? && after.value.state == entries[i].1.state
    decreases |entries|
  {
    if |entries| > 0 {
      var (name, data) := entries[0];
      var m := Lookup(modules, name).value;
      var after := Assign(modules, name, LoadInto(m, data.state));
      var rest := entries[1..];
      forall i | 0 <= i < |rest|
        ensures rest[i].1.StateDict? && Lookup(after, rest[i].0).Some? && Lookup(after, rest[i].0).value.hasLoadStateDict
      {
        assert rest[i] == entries[i + 1];
        LoadKeepsCapabilities(modules, name, m, data.state, rest[i].0);
      }
      assert DistinctNames(rest) by {
        forall i, j | 0 <= i < j < |rest| ensures rest[i].0 != rest[j].0 {
          assert rest[i] == entries[i + 1] && rest[j] == entries[j + 1];
        }
      }
      LoadStateDicts(after, rest);
      var final := LoadEntries(after, rest).modules;
      assert name !in Names(rest) by {
        forall i | 0 <= i < |rest| ensures Names(rest)[i] != name {
          assert rest[i] == entries[i + 1];
        }
      }
      LoadLeavesUnnamed(after, rest, name);
      forall i | 0 <= i < |entries|
        ensures var a := Lookup(final, entries[i].0); a.Some? && a.value.state == entries[i].1.state
      {
        if i > 0 {
          assert entries[i] == rest[i - 1];
        }
      }
    }
  }

  /** Saving one agent's modules and loading the checkpoint into an agent with
      the same module names (a fresh instance of the same architecture, or the
      same agent) completes without warnings and restores every module's state. */
  lemma SaveThenLoadRestores<S>(source: Dict<Module<S>>, target: Dict<Module<S>>)
    requires DistinctNames(source) && Names(target) == Names(source)
    requires forall i :: 0 <= i < |source| ==> source[i].1.hasStateDict
    requires forall i :: 0 <= i < |target| ==> target[i].1.hasLoadStateDict
    ensures var r := Load(target, DictFile(Save(source)));
      && r.Completed? && r.warnings == [] && Names(r.modules) == Names(source)
      && forall i :: 0 <= i < |source| ==>
           var after := Lookup(r.modules, source[i].0);
           after.Some? && after.value.state == source[i].1.state
  {
    var ckpt := Save(source);
    assert DistinctNames(ckpt) by {
      forall i, j | 0 <= i < j < |ckpt| ensures ckpt[i].0 != ckpt[j].0 {
        assert ckpt[i].0 == Names(ckpt)[i] == source[i].0;
        assert ckpt[j].0 == Names(ckpt)[j] == source[j].0;
      }
    }
    assert DistinctNames(target) by {
      forall i, j | 0 <= i < j < |target| ensures target[i].0 != target[j].0 {
        assert target[i].0 == Names(target)[i];
        assert target[j].0 == Names(target)[j];
      }
    }
    forall i | 0 <= i < |ckpt|
      ensures ckpt[i].1.StateDict? && Lookup(target, ckpt[i].0).Some? && Lookup(target, ckpt[i].0).value.hasLoadStateDict
    {
      assert ckpt[i].0 == Names(ckpt)[i] == Names(target)[i] == target[i].0;
    }
    LoadStateDicts(target, ckpt);
    forall i | 0 <= i < |source|
      ensures ckpt[i].0 == source[i].0 && ckpt[i].1.state == source[i].1.state
    {
      assert ckpt[i].0 == Names(ckpt)[i];
    }
  }
}
