/** The data directory as a sequence of file-system calls. Every call records each state
    the disk passes through, so that "the process may die between any two steps, or
    part way through a write" is a statement about `history`. */
module FileSystem {
  import opened ByteStrings

  type Disk = map<string, Bytes>

  /** A state the disk was in. `exposed` marks the stretches in which a crash is not
      promised to be harmless (see Store). */
  datatype Moment = Moment(disk: Disk, exposed: bool)

  /** `d` is `base` except for what is called `name`. */
  ghost predicate SameExcept(d: Disk, base: Disk, name: string) {
    d - {name} == base - {name}
  }

  ghost predicate AllExcept(moments: seq<Moment>, base: Disk, name: string, exposed: bool) {
    forall i :: 0 <= i < |moments| ==> SameExcept(moments[i].disk, base, name) && moments[i].exposed == exposed
  }

  /** Every state an append passes through: some prefix of the new bytes is there. */
  ghost predicate IsAppend(moments: seq<Moment>, base: Disk, name: string, data: Bytes, exposed: bool)
    requires name in base
  {
    forall i :: 0 <= i < |moments| ==>
      && moments[i].exposed == exposed
      && exists k :: 0 <= k <= |data| && moments[i].disk == base[name := base[name] + data[..k]]
  }

  /** Everything there is to know about a directory at one moment. */
  datatype State = State(
    files: Disk, history: seq<Moment>, exposed: bool, dirtyData: set<string>, dirtyNames: set<string>, dirSyncs: nat,
    trace: seq<Stage>, refused: nat)

  /** What a call leaves: the disk, and what of it is not synced. */
  datatype Stage = Stage(disk: Disk, dirtyData: set<string>, dirtyNames: set<string>, dirSyncs: nat)

  function StageOf(st: State): Stage {
    Stage(st.files, st.dirtyData, st.dirtyNames, st.dirSyncs)
  }

  /** The trace ends with the stage there is now. */
  ghost predicate Traced(st: State) {
    st.trace != [] && st.trace[|st.trace| - 1] == StageOf(st)
  }

  ghost predicate Traces(a: State, b: State) {
    a.trace <= b.trace && (Traced(a) ==> Traced(b)) && a.refused <= b.refused
  }

  /** History and trace grew, and their last entries are what there is now. */
  ghost predicate Recorded(a: State, b: State) {
    && a.history <= b.history && Traces(a, b)
    && if |a.history| == |b.history| then b.files == a.files else b.history[|b.history| - 1].disk == b.files
  }

  /** Between `a` and `b` nothing but the file `name` was touched, and every state the
      disk passed through says the same. */
  ghost predicate OnlyTouched(a: State, b: State, name: string) {
    && Recorded(a, b) && b.exposed == a.exposed && b.dirSyncs == a.dirSyncs
    && AllExcept(b.history[|a.history|..], a.files, name, a.exposed)
    && SameExcept(b.files, a.files, name)
    && b.dirtyData - {name} == a.dirtyData - {name}
    && b.dirtyNames - {name} == a.dirtyNames - {name}
  }

  lemma OnlyTouchedTransitive(a: State, b: State, c: State, name: string)
    requires OnlyTouched(a, b, name) && OnlyTouched(b, c, name)
    ensures OnlyTouched(a, c, name)
  {
    var h := c.history[|a.history|..];
    forall i | 0 <= i < |h| ensures SameExcept(h[i].disk, a.files, name) && h[i].exposed == a.exposed {
      if |a.history| + i < |b.history| {
        assert h[i] == b.history[|a.history|..][i];
      } else {
        assert h[i] == c.history[|b.history|..][|a.history| + i - |b.history|];
      }
    }
  }

  lemma OnlyTouchedCounts(a: State, b: State, name: string)
    requires OnlyTouched(a, b, name)
    ensures a.refused <= b.refused
  {
  }

  lemma OnlyTouchedNot(a: State, name: string)
    ensures OnlyTouched(a, a, name)
  {
  }

  lemma OnlyTouchedSync(a: State, b: State, c: State, name: string)
    requires OnlyTouched(a, b, name) && Traces(b, c)
    requires c.files == b.files && c.history == b.history && c.exposed == b.exposed && c.dirSyncs == b.dirSyncs
    requires c.dirtyData == b.dirtyData - {name} && c.dirtyNames == b.dirtyNames
    ensures OnlyTouched(a, c, name)
  {
    hide AllExcept, SameExcept;
    assert c.dirtyData - {name} == b.dirtyData - {name};
  }

  /** Between `a` and `b` these bytes were appended to `name`, and nothing else was. */
  ghost predicate Appended(a: State, b: State, name: string, data: Bytes) {
    && name in a.files && b.files == a.files[name := a.files[name] + data]
    && Recorded(a, b) && b.exposed == a.exposed
    && IsAppend(b.history[|a.history|..], a.files, name, data, a.exposed)
    && b.dirtyNames == a.dirtyNames && b.dirSyncs == a.dirSyncs
    && b.dirtyData - {name} == a.dirtyData - {name}
  }

  const MAX_FILE: nat := 0x800_0000_0000

  class Directory {
    var files: Disk
    var history: seq<Moment>
    var exposed: bool
    ghost var dirtyData: set<string>   // files with bytes that no fsync has covered
    ghost var dirtyNames: set<string>  // names changed since the directory was last fsynced
    ghost var dirSyncs: nat            // how often it has been
    ghost var trace: seq<Stage>        // what every call so far has left
    ghost var refused: nat             // how many writes have failed

    ghost function Now(): State
      reads this
    {
      State(files, history, exposed, dirtyData, dirtyNames, dirSyncs, trace, refused)
    }

    constructor (disk: Disk)
      ensures files == disk && history == [] && !exposed && dirtyData == {} && dirtyNames == {} && dirSyncs == 0
      ensures trace == [Stage(disk, {}, {}, 0)] && refused == 0
    {
      files, history, exposed, dirtyData, dirtyNames, dirSyncs := disk, [], false, {}, {}, 0;
      trace, refused := [Stage(disk, {}, {}, 0)], 0;
    }

    /** open with O_CREAT | O_TRUNC */
    method Create(name: string)
      modifies this
      ensures files == old(files)[name := []]
      ensures history == old(history) + [Moment(files, exposed)] && exposed == old(exposed)
      ensures dirtyData == old(dirtyData) + {name} && dirtyNames == old(dirtyNames) + {name}
      ensures dirSyncs == old(dirSyncs)
      ensures old(trace) <= trace && Traced(Now()) && refused == old(refused)
    {
      files := files[name := []];
      history := history + [Moment(files, exposed)];
      dirtyData, dirtyNames := dirtyData + {name}, dirtyNames + {name};
      trace := trace + [StageOf(Now())];
    }

    /** `write_all`: the bytes land one after the other. */
    method Append(name: string, data: Bytes)
      requires name in files
      modifies this
      ensures files == old(files)[name := old(files[name]) + data]
      ensures old(history) <= history && exposed == old(exposed)
      ensures IsAppend(history[|old(history)|..], old(files), name, data, exposed)
      ensures Recorded(old(Now()), Now())
      ensures dirtyData == old(dirtyData) + {name} && dirtyNames == old(dirtyNames) && dirSyncs == old(dirSyncs)
      ensures old(trace) <= trace && Traced(Now()) && refused == old(refused)
    {
      ghost var base, start := files, |history|;
      dirtyData := dirtyData + {name};
      assert base[name] + data[..0] == base[name];
      for n := 0 to |data|
        invariant files == base[name := base[name] + data[..n]]
        invariant old(history) <= history && exposed == old(exposed) && dirSyncs == old(dirSyncs)
        invariant trace == old(trace) && refused == old(refused)
        invariant if |old(history)| == |history| then files == old(files) else history[|history| - 1].disk == files
        invariant IsAppend(history[start..], base, name, data, exposed)
        invariant dirtyData == old(dirtyData) + {name} && dirtyNames == old(dirtyNames)
      {
        ghost var before := history;
        files := files[name := files[name] + [data[n]]];
        history := history + [Moment(files, exposed)];
        assert base[name] + data[..n] + [data[n]] == base[name] + data[..n + 1];
        assert files == base[name := base[name] + data[..n + 1]];
        assert history[start..] == before[start..] + [Moment(files, exposed)];
      }
      assert data[..|data|] == data;
      trace := trace + [StageOf(Now())];
    }

    /** A write that may fail part way, and does fail rather than outgrow the limit. */
    method TryAppend(name: string, data: Bytes) returns (ok: bool)
      requires name in files
      modifies this
      ensures name in files && OnlyTouched(old(Now()), Now(), name)
      ensures ok ==> files[name] == old(files[name]) + data && |files[name]| < MAX_FILE
      ensures refused == old(refused) + if ok then 0 else 1
    {
      var give: bool := *;
      var n: int := *;
      ok := !give && |files[name]| + |data| < MAX_FILE;
      var part := if ok || n < 0 || n > |data| then |data| else n;
      ghost var base := files;
      Append(name, data[..part]);
      if !ok { refused := refused + 1; }
      assert ok ==> data[..part] == data;
      forall i | |old(history)| <= i < |history| ensures SameExcept(history[i].disk, base, name) {
        assert history[i] == history[|old(history)|..][i - |old(history)|];
      }
    }

    /** ftruncate */
    method Truncate(name: string, n: nat)
      requires name in files && n <= |files[name]|
      modifies this
      ensures files == old(files)[name := old(files[name])[..n]]
      ensures history == old(history) + [Moment(files, exposed)] && exposed == old(exposed)
      ensures dirtyData == old(dirtyData) + {name} && dirtyNames == old(dirtyNames) && dirSyncs == old(dirSyncs)
      ensures old(trace) <= trace && Traced(Now()) && refused == old(refused)
    {
      files := files[name := files[name][..n]];
      history := history + [Moment(files, exposed)];
      dirtyData := dirtyData + {name};
      trace := trace + [StageOf(Now())];
    }

    /** rename: atomic, replaces the target. */
    method Rename(source: string, target: string)
      requires source in files && source != target
      modifies this
      ensures files == (old(files) - {source})[target := old(files[source])]
      ensures history == old(history) + [Moment(files, exposed)] && exposed == old(exposed)
      ensures dirtyData == old(dirtyData) - {source, target} + (if source in old(dirtyData) then {target} else {})
      ensures dirtyNames == old(dirtyNames) + {source, target} && dirSyncs == old(dirSyncs)
      ensures old(trace) <= trace && Traced(Now()) && refused == old(refused)
    {
      dirtyData := dirtyData - {source, target} + (if source in dirtyData then {target} else {});
      files := (files - {source})[target := files[source]];
      history := history + [Moment(files, exposed)];
      dirtyNames := dirtyNames + {source, target};
      trace := trace + [StageOf(Now())];
    }

    /** unlink: a missing name is not an error to any caller. */
    method Unlink(name: string)
      modifies this
      ensures files == old(files) - {name}
      ensures history == old(history) + [Moment(files, exposed)] && exposed == old(exposed)
      ensures dirtyData == old(dirtyData) - {name} && dirtyNames == old(dirtyNames) + {name}
      ensures dirSyncs == old(dirSyncs)
      ensures old(trace) <= trace && Traced(Now()) && refused == old(refused)
    {
      files := files - {name};
      history := history + [Moment(files, exposed)];
      dirtyData, dirtyNames := dirtyData - {name}, dirtyNames + {name};
      trace := trace + [StageOf(Now())];
    }

    method Fsync(name: string)
      modifies this
      ensures files == old(files) && history == old(history) && exposed == old(exposed)
      ensures dirtyData == old(dirtyData) - {name} && dirtyNames == old(dirtyNames) && dirSyncs == old(dirSyncs)
      ensures old(trace) <= trace && Traced(Now()) && refused == old(refused)
    {
      dirtyData := dirtyData - {name};
      trace := trace + [StageOf(Now())];
    }

    method FsyncDir()
      modifies this
      ensures files == old(files) && history == old(history) && exposed == old(exposed)
      ensures dirtyData == old(dirtyData) && dirtyNames == {} && dirSyncs == old(dirSyncs) + 1
      ensures old(trace) <= trace && Traced(Now()) && refused == old(refused)
    {
      dirtyNames := {};
      dirSyncs := dirSyncs + 1;
      trace := trace + [StageOf(Now())];
    }
  }
}
