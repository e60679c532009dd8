/** The staging protocol of tftpos/staging.py as a state machine: any number of concurrent `stage`
    calls over one shared directory, interleaved with `unstage`, where every system call may fail.
    One move of a call is one system call; a copy is many moves. A call that is never moved again
    is one that crashed. */
module Staging {
  import opened Common

  newtype byte = x: int | 0 <= x < 256

  type Content = seq<byte>

  /** Names that `mkstemp` issues are apart from those that callers use, and are never issued twice. */
  datatype Name = Temp(id: nat) | Entry(name: string)

  datatype Node = File(content: Content) | Link(dest: Name)

  type FileSystem = map<Name, Node>

  // ---------- Reading a name ----------

  /** Symbolic links the kernel follows before it gives up (ELOOP). */
  const MAX_LINKS: nat := 40

  function Resolve(fs: FileSystem, n: Name, fuel: nat): Option<Content>
    decreases fuel
  {
    if n !in fs then None
    else match fs[n]
      case File(c) => Some(c)
      case Link(d) => if fuel == 0 then None else Resolve(fs, d, fuel - 1)
  }

  function Read(fs: FileSystem, n: Name): Option<Content> {
    Resolve(fs, n, MAX_LINKS)
  }

  /** Following links from `n` meets `t`. */
  predicate PassesThrough(fs: FileSystem, n: Name, t: Name, fuel: nat)
    decreases fuel
  {
    n == t || (n in fs && fs[n].Link? && fuel > 0 && PassesThrough(fs, fs[n].dest, t, fuel - 1))
  }

  // ---------- One call ----------

  /** The next system call of a `stage` call. `copying` tells the copy path, which is also the
      fall-back of the symlink path. */
  datatype Pc =
    | Begun                      // checks on the firmware, creation of the directory
    | Making(copying: bool)      // mkstemp
    | Closing(copying: bool)     // close of the temp descriptor
    | Freeing                    // unlink that frees the temp name for symlink
    | Linking                    // symlink
    | Opening                    // copy2: open both files
    | Copying(written: nat)      // copy2: write on, then copy the metadata
    | Renaming(copying: bool)    // replace
    | Cleaning(copying: bool)    // unlink in the failure handler
    | Returned
    | Raised

  /** `current` is the temp in use, `made` all temps of this call, `leaked` those whose close or unlink
      failed, `source` what the copy read, `published` the node moved to the target. */
  datatype Call = Call(
    firmware: string, target: string, symlink: bool, pc: Pc,
    current: Option<nat>, made: set<nat>, leaked: set<nat>,
    source: Option<Content>, published: Option<Node>)

  datatype Choice = Go(bytes: nat) | Fault

  function Begin(firmware: string, target: string, symlink: bool): Call {
    Call(firmware, target, symlink, Begun, None, {}, {}, None, None)
  }

  function Leave(c: Call, pc: Pc): Call {
    c.(pc := pc, current := None)
  }

  /** The call gives up on its temp without having removed it. */
  function Leak(c: Call, pc: Pc): Call {
    match c.current
    case None => Leave(c, pc)
    case Some(t) => Leave(c, pc).(leaked := c.leaked + {t})
  }

  /** Where a failure leads: the symlink path falls back to a copy, the copy path raises. */
  function AfterFailure(copying: bool): Pc {
    if copying then Raised else Making(true)
  }

  /** One move of a call: the file system, the next unused temp, and the call after it. */
  function Advance(fs: FileSystem, next: nat, c: Call, ch: Choice): (FileSystem, nat, Call) {
    match c.pc
    case Begun =>
      if ch.Go? && Read(fs, Entry(c.firmware)).Some? then (fs, next, c.(pc := Making(!c.symlink)))
      else (fs, next, c.(pc := Raised))
    case Making(copying) =>
      if ch.Fault? then (fs, next, c.(pc := AfterFailure(copying)))
      else (fs[Temp(next) := File([])], next + 1,
            c.(pc := Closing(copying), current := Some(next), made := c.made + {next}))
    case Closing(copying) =>
      if ch.Fault? then (fs, next, Leak(c, AfterFailure(copying)))
      else (fs, next, c.(pc := if copying then Opening else Freeing))
    case Freeing =>
      if ch.Fault? || c.current.None? then (fs, next, Leak(c, AfterFailure(false)))
      else (fs - {Temp(c.current.value)}, next, c.(pc := Linking))
    case Linking =>
      if ch.Fault? || c.current.None? || Temp(c.current.value) in fs then (fs, next, c.(pc := Cleaning(false)))
      else (fs[Temp(c.current.value) := Link(Entry(c.firmware))], next, c.(pc := Renaming(false)))
    case Opening =>
      var read := Read(fs, Entry(c.firmware));
      if ch.Fault? || c.current.None? || read.None? then (fs, next, c.(pc := Cleaning(true)))
      else (fs[Temp(c.current.value) := File([])], next, c.(pc := Copying(0), source := read))
    case Copying(written) =>
      if ch.Fault? || c.current.None? || c.source.None? || written > |c.source.value| then
        (fs, next, c.(pc := Cleaning(true)))
      else if written == |c.source.value| then (fs, next, c.(pc := Renaming(true)))
      else
        var upTo := if 1 <= ch.bytes <= |c.source.value| - written then written + ch.bytes else |c.source.value|;
        (fs[Temp(c.current.value) := File(c.source.value[..upTo])], next, c.(pc := Copying(upTo)))
    case Renaming(copying) =>
      if ch.Fault? || c.current.None? || Temp(c.current.value) !in fs then (fs, next, c.(pc := Cleaning(copying)))
      else
        var node := fs[Temp(c.current.value)];
        ((fs - {Temp(c.current.value)})[Entry(c.target) := node], next, Leave(c, Returned).(published := Some(node)))
    case Cleaning(copying) =>
      if c.current.None? || Temp(c.current.value) !in fs then (fs, next, Leave(c, AfterFailure(copying)))
      else if ch.Fault? then (fs, next, Leak(c, AfterFailure(copying)))
      else (fs - {Temp(c.current.value)}, next, Leave(c, AfterFailure(copying)))
    case Returned => (fs, next, c)
    case Raised => (fs, next, c)
  }

  // ---------- The system ----------

  datatype State = State(fs: FileSystem, next: nat, calls: seq<Call>)

  datatype Action =
    | Stage(firmware: string, target: string, symlink: bool)
    | Move(i: nat, choice: Choice)
    | Unstage(name: string, choice: Choice)

  function Do(s: State, a: Action): State {
    match a
    case Stage(firmware, target, symlink) => s.(calls := s.calls + [Begin(firmware, target, symlink)])
    case Move(i, ch) =>
      if i >= |s.calls| then s
      else
        var (fs, next, c) := Advance(s.fs, s.next, s.calls[i], ch);
        State(fs, next, s.calls[i := c])
    case Unstage(name, ch) => if ch.Fault? then s else s.(fs := s.fs - {Entry(name)})
  }

  function StateAfter(s: State, actions: seq<Action>): State {
    if actions == [] then s
    else Do(StateAfter(s, actions[..|actions| - 1]), actions[|actions| - 1])
  }

  lemma StateAfterStep(s: State, actions: seq<Action>, k: nat)
    requires k < |actions|
    ensures StateAfter(s, actions[..k + 1]) == Do(StateAfter(s, actions[..k]), actions[k])
  {
    assert actions[..k + 1][..k] == actions[..k];
  }

  // ---------- What every step keeps ----------

  ghost predicate LinksLeadToEntries(fs: FileSystem) {
    forall n | n in fs && fs[n].Link? :: fs[n].dest.Entry?
  }

  ghost predicate TempsIssued(fs: FileSystem, next: nat) {
    forall id: nat | Temp(id) in fs :: id < next
  }

  /** What the current temp of a call holds, by the call's next system call. */
  ghost predicate TempMatchesPc(fs: FileSystem, c: Call) {
    match c.pc
    case Begun | Making(_) | Returned | Raised => c.current.None?
    case Closing(_) | Freeing | Opening => c.current.Some? && Holds(fs, c.current.value, File([]))
    case Linking => c.current.Some? && Temp(c.current.value) !in fs
    case Copying(written) =>
      && c.current.Some? && c.source.Some? && written <= |c.source.value|
      && Holds(fs, c.current.value, File(c.source.value[..written]))
    case Renaming(copying) =>
      && c.current.Some? && (copying ==> c.source.Some?)
      && Holds(fs, c.current.value, if copying then File(c.source.value) else Link(Entry(c.firmware)))
    case Cleaning(_) => c.current.Some?
  }

  ghost predicate Holds(fs: FileSystem, id: nat, node: Node) {
    Temp(id) in fs && fs[Temp(id)] == node
  }

  ghost predicate CallOk(fs: FileSystem, next: nat, c: Call) {
    && (forall id | id in c.made :: id < next)
    && c.leaked <= c.made
    && (c.current.Some? ==> c.current.value in c.made && c.current.value !in c.leaked)
    && TempMatchesPc(fs, c)
    && (forall id | id in c.made && c.current != Some(id) :: Temp(id) in fs <==> id in c.leaked)
    && (c.published.Some? <==> c.pc.Returned?)
    && (c.published.Some? ==> c.published.value == Link(Entry(c.firmware))
                              || (c.source.Some? && c.published.value == File(c.source.value)))
  }

  ghost predicate Inv(s: State) {
    && LinksLeadToEntries(s.fs) && TempsIssued(s.fs, s.next)
    && (forall i: nat | i < |s.calls| :: CallOk(s.fs, s.next, s.calls[i]))
    && (forall i: nat, j: nat | i < j < |s.calls| :: s.calls[i].made !! s.calls[j].made)
  }

  lemma BeginOrMakeKeepsCall(fs: FileSystem, next: nat, c: Call, ch: Choice)
    requires c.pc.Begun? || c.pc.Making?
    requires LinksLeadToEntries(fs) && TempsIssued(fs, next) && CallOk(fs, next, c)
    ensures var (fs', next', c') := Advance(fs, next, c, ch);
            LinksLeadToEntries(fs') && TempsIssued(fs', next') && CallOk(fs', next', c')
  {
  }

  lemma CloseOrFreeKeepsCall(fs: FileSystem, next: nat, c: Call, ch: Choice)
    requires c.pc.Closing? || c.pc.Freeing?
    requires LinksLeadToEntries(fs) && TempsIssued(fs, next) && CallOk(fs, next, c)
    ensures var (fs', next', c') := Advance(fs, next, c, ch);
            LinksLeadToEntries(fs') && TempsIssued(fs', next') && CallOk(fs', next', c')
  {
  }

  lemma LinkKeepsCall(fs: FileSystem, next: nat, c: Call, ch: Choice)
    requires c.pc.Linking?
    requires LinksLeadToEntries(fs) && TempsIssued(fs, next) && CallOk(fs, next, c)
    ensures var (fs', next', c') := Advance(fs, next, c, ch);
            LinksLeadToEntries(fs') && TempsIssued(fs', next') && CallOk(fs', next', c')
  {
  }

  lemma CopyKeepsCall(fs: FileSystem, next: nat, c: Call, ch: Choice)
    requires c.pc.Opening? || c.pc.Copying?
    requires LinksLeadToEntries(fs) && TempsIssued(fs, next) && CallOk(fs, next, c)
    ensures var (fs', next', c') := Advance(fs, next, c, ch);
            LinksLeadToEntries(fs') && TempsIssued(fs', next') && CallOk(fs', next', c')
  {
  }

  lemma RenameKeepsCall(fs: FileSystem, next: nat, c: Call, ch: Choice)
    requires c.pc.Renaming?
    requires LinksLeadToEntries(fs) && TempsIssued(fs, next) && CallOk(fs, next, c)
    ensures var (fs', next', c') := Advance(fs, next, c, ch);
            LinksLeadToEntries(fs') && TempsIssued(fs', next') && CallOk(fs', next', c')
  {
  }

  lemma CleanKeepsCall(fs: FileSystem, next: nat, c: Call, ch: Choice)
    requires c.pc.Cleaning?
    requires LinksLeadToEntries(fs) && TempsIssued(fs, next) && CallOk(fs, next, c)
    ensures var (fs', next', c') := Advance(fs, next, c, ch);
            LinksLeadToEntries(fs') && TempsIssued(fs', next') && CallOk(fs', next', c')
  {
  }

  lemma AdvanceKeepsCall(fs: FileSystem, next: nat, c: Call, ch: Choice)
    requires LinksLeadToEntries(fs) && TempsIssued(fs, next) && CallOk(fs, next, c)
    ensures var (fs', next', c') := Advance(fs, next, c, ch);
            LinksLeadToEntries(fs') && TempsIssued(fs', next') && CallOk(fs', next', c')
  {
    match c.pc {
      case Begun | Making(_) => BeginOrMakeKeepsCall(fs, next, c, ch);
      case Closing(_) | Freeing => CloseOrFreeKeepsCall(fs, next, c, ch);
      case Linking => LinkKeepsCall(fs, next, c, ch);
      case Opening | Copying(_) => CopyKeepsCall(fs, next, c, ch);
      case Renaming(_) => RenameKeepsCall(fs, next, c, ch);
      case Cleaning(_) => CleanKeepsCall(fs, next, c, ch);
      case Returned | Raised =>
    }
  }

  /** A move touches no temp but the call's own, and no entry unless it is the rename that returns. */
  lemma AdvanceFrame(fs: FileSystem, next: nat, c: Call, ch: Choice)
    requires TempsIssued(fs, next) && CallOk(fs, next, c)
    ensures var (fs', next', c') := Advance(fs, next, c, ch);
            && next <= next' && c.made <= c'.made
            && (forall id <- c'.made - c.made :: next <= id < next')
            && c'.firmware == c.firmware && c'.target == c.target
            && (forall id: nat | id !in c'.made :: SameAt(fs, fs', Temp(id)))
            && (forall e: string | e != c.target || !c'.pc.Returned? || c.pc.Returned? :: SameAt(fs, fs', Entry(e)))
            && (c'.pc.Returned? && !c.pc.Returned? ==>
                  && c.pc.Renaming? && Entry(c.target) in fs' && c'.published == Some(fs'[Entry(c.target)]))
  {
  }

  ghost predicate SameAt(fs: FileSystem, fs': FileSystem, n: Name) {
    (n in fs <==> n in fs') && (n in fs ==> fs[n] == fs'[n])
  }

  lemma OtherCallKept(fs: FileSystem, fs': FileSystem, next: nat, next': nat, c: Call)
    requires CallOk(fs, next, c) && next <= next'
    requires forall id | id in c.made :: SameAt(fs, fs', Temp(id))
    ensures CallOk(fs', next', c)
  {
  }

  lemma MoveKeepsInv(s: State, i: nat, ch: Choice)
    requires Inv(s) && i < |s.calls|
    ensures Inv(Do(s, Move(i, ch)))
  {
    var c, s' := s.calls[i], Do(s, Move(i, ch));
    AdvanceKeepsCall(s.fs, s.next, c, ch);
    AdvanceFrame(s.fs, s.next, c, ch);
    var c' := s'.calls[i];
    forall j: nat | j < |s'.calls| && j != i
      ensures CallOk(s'.fs, s'.next, s'.calls[j]) && s'.calls[j].made !! c'.made
    {
      assert s.calls[j].made !! c.made;
      OtherCallKept(s.fs, s'.fs, s.next, s'.next, s.calls[j]);
    }
  }

  lemma UnstageKeepsInv(s: State, name: string, ch: Choice)
    requires Inv(s)
    ensures Inv(Do(s, Unstage(name, ch)))
  {
    var s' := Do(s, Unstage(name, ch));
    forall j: nat | j < |s.calls|
      ensures CallOk(s'.fs, s'.next, s.calls[j])
    {
      OtherCallKept(s.fs, s'.fs, s.next, s'.next, s.calls[j]);
    }
  }

  lemma DoKeepsInv(s: State, a: Action)
    requires Inv(s)
    ensures Inv(Do(s, a))
  {
    match a {
      case Stage(firmware, target, symlink) =>
        assert CallOk(s.fs, s.next, Begin(firmware, target, symlink));
      case Move(i, ch) => if i < |s.calls| { MoveKeepsInv(s, i, ch); }
      case Unstage(name, ch) => UnstageKeepsInv(s, name, ch);
    }
  }

  /** A directory before the first call: temps left by earlier processes, links among entries only. */
  ghost predicate Initial(s: State) {
    s.calls == [] && LinksLeadToEntries(s.fs) && TempsIssued(s.fs, s.next)
  }

  lemma {:induction false} RunKeepsInv(s: State, actions: seq<Action>)
    requires Initial(s)
    ensures Inv(StateAfter(s, actions))
    decreases |actions|
  {
    if actions != [] {
      RunKeepsInv(s, actions[..|actions| - 1]);
      DoKeepsInv(StateAfter(s, actions[..|actions| - 1]), actions[|actions| - 1]);
    }
  }

  // ---------- Safety of the served names ----------

  /** In one step an entry changes only by an unstage of it, or by the rename with which a call for it
      returns; the rename installs a complete node. */
  lemma EntryChangesOnlyWhole(s: State, a: Action, e: string)
    requires Inv(s)
    requires !SameAt(s.fs, Do(s, a).fs, Entry(e))
    ensures a == Unstage(e, a.choice) || (a.Move? && a.i < |s.calls| && ReturnsBy(s, a) && s.calls[a.i].target == e
                                          && Entry(e) in Do(s, a).fs
                                          && Do(s, a).calls[a.i].published == Some(Do(s, a).fs[Entry(e)]))
  {
    if a.Move? && a.i < |s.calls| {
      AdvanceFrame(s.fs, s.next, s.calls[a.i], a.choice);
    }
  }

  /** The move with which its call returns. */
  ghost predicate ReturnsBy(s: State, a: Action) {
    && a.Move? && a.i < |s.calls|
    && !s.calls[a.i].pc.Returned? && Do(s, a).calls[a.i].pc.Returned?
  }

  /** Some call for entry `e` has published this node. */
  ghost predicate Published(s: State, e: string, node: Node) {
    exists i: nat :: i < |s.calls| && PublishedBy(s.calls[i], e, node)
  }

  ghost predicate PublishedBy(c: Call, e: string, node: Node) {
    c.target == e && c.published == Some(node)
  }

  lemma PublishedStays(s: State, a: Action, e: string, node: Node)
    requires Inv(s) && Published(s, e, node)
    ensures Published(Do(s, a), e, node)
  {
    var i: nat :| i < |s.calls| && PublishedBy(s.calls[i], e, node);
    assert CallOk(s.fs, s.next, s.calls[i]);
    assert PublishedBy(Do(s, a).calls[i], e, node);
  }

  /** In every reachable state, whatever the interleaving and the failures, an entry denotes its initial
      node or the node some call for it has published. */
  lemma {:induction false} EntriesAreInitialOrPublished(s: State, actions: seq<Action>, e: string)
    requires Initial(s)
    requires Entry(e) in StateAfter(s, actions).fs
    ensures var node := StateAfter(s, actions).fs[Entry(e)];
            || (Entry(e) in s.fs && node == s.fs[Entry(e)])
            || Published(StateAfter(s, actions), e, node)
    decreases |actions|
  {
    if actions != [] {
      var rest, a := actions[..|actions| - 1], actions[|actions| - 1];
      var before, after := StateAfter(s, rest), StateAfter(s, actions);
      RunKeepsInv(s, rest);
      if SameAt(before.fs, after.fs, Entry(e)) {
        EntriesAreInitialOrPublished(s, rest, e);
        if Published(before, e, after.fs[Entry(e)]) {
          PublishedStays(before, a, e, after.fs[Entry(e)]);
        }
      } else {
        EntryChangesOnlyWhole(before, a, e);
        if a.Move? {
          assert PublishedBy(after.calls[a.i], e, after.fs[Entry(e)]);
        }
      }
    }
  }

  /** What a call published is a finished symlink to its firmware, or a copy of all that the firmware
      held at the moment within the call when it opened it. */
  lemma {:induction false} PublishedIsWhole(s: State, actions: seq<Action>, i: nat)
    requires Initial(s)
    requires i < |StateAfter(s, actions).calls| && StateAfter(s, actions).calls[i].published.Some?
    ensures var c := StateAfter(s, actions).calls[i];
            || c.published.value == Link(Entry(c.firmware))
            || exists k: nat, content: Content :: k < |actions| && c.published.value == File(content)
                 && OpenedAt(s, actions, k, i, Some(content))
  {
    RunKeepsInv(s, actions);
    var c := StateAfter(s, actions).calls[i];
    assert CallOk(StateAfter(s, actions).fs, StateAfter(s, actions).next, c);
    if c.published.value != Link(Entry(c.firmware)) {
      var k := SourceWasOpened(s, actions, i);
      assert c.published.value == File(c.source.value);
    }
  }

  /** Action k is a move of call i, which has begun and opens its firmware, and this is what it reads. */
  ghost predicate OpenedAt(s: State, actions: seq<Action>, k: nat, i: nat, content: Option<Content>)
    requires k < |actions|
  {
    var before := StateAfter(s, actions[..k]);
    && i < |before.calls| && before.calls[i].pc.Opening?
    && actions[k].Move? && actions[k].i == i
    && Read(before.fs, Entry(before.calls[i].firmware)) == content
  }

  lemma {:induction false} SourceWasOpened(s: State, actions: seq<Action>, i: nat) returns (k: nat)
    requires Initial(s)
    requires i < |StateAfter(s, actions).calls| && StateAfter(s, actions).calls[i].source.Some?
    ensures k < |actions|
    ensures OpenedAt(s, actions, k, i, StateAfter(s, actions).calls[i].source)
    decreases |actions|
  {
    var rest, a := actions[..|actions| - 1], actions[|actions| - 1];
    var before := StateAfter(s, rest);
    var c := StateAfter(s, actions).calls[i];
    SourceStep(before, a, i);
    if c.source == before.calls[i].source {
      k := SourceWasOpened(s, rest, i);
      assert actions[..k] == rest[..k];
    } else {
      k := |rest|;
      assert actions[..k] == rest;
    }
  }

  lemma SourceStep(s: State, a: Action, i: nat)
    requires i < |Do(s, a).calls| && Do(s, a).calls[i].source.Some?
    ensures i < |s.calls| && Do(s, a).calls[i].firmware == s.calls[i].firmware
    ensures Do(s, a).calls[i].source == s.calls[i].source
            || (a.Move? && a.i == i && s.calls[i].pc.Opening?
                && Do(s, a).calls[i].source == Read(s.fs, Entry(s.calls[i].firmware)))
  {
  }

  /** Once present, an entry stays present until it is unstaged. */
  lemma {:induction false} EntryStaysPresent(s: State, actions: seq<Action>, e: string, start: nat, stop: nat)
    requires Initial(s) && start <= stop <= |actions|
    requires Entry(e) in StateAfter(s, actions[..start]).fs
    requires forall k | start <= k < stop && actions[k].Unstage? :: actions[k].name != e
    ensures Entry(e) in StateAfter(s, actions[..stop]).fs
    decreases stop
  {
    if start < stop {
      var k := stop - 1;
      EntryStaysPresent(s, actions, e, start, k);
      StateAfterStep(s, actions, k);
      RunKeepsInv(s, actions[..k]);
      if !SameAt(StateAfter(s, actions[..k]).fs, StateAfter(s, actions[..stop]).fs, Entry(e)) {
        EntryChangesOnlyWhole(StateAfter(s, actions[..k]), actions[k], e);
      }
    }
  }

  /** Action k is the first move of call i, which finds its firmware readable. */
  ghost predicate CheckedAt(s: State, actions: seq<Action>, k: nat, i: nat)
    requires k < |actions|
  {
    var before := StateAfter(s, actions[..k]);
    && i < |before.calls| && before.calls[i].pc.Begun?
    && actions[k].Move? && actions[k].i == i && actions[k].choice.Go?
    && Read(before.fs, Entry(before.calls[i].firmware)).Some?
  }

  lemma CheckStep(s: State, a: Action, i: nat)
    requires i < |Do(s, a).calls| && !Do(s, a).calls[i].pc.Begun? && !Do(s, a).calls[i].pc.Raised?
    ensures i < |s.calls| && !s.calls[i].pc.Raised?
    ensures s.calls[i].pc.Begun? ==>
              && a.Move? && a.i == i && a.choice.Go?
              && Read(s.fs, Entry(s.calls[i].firmware)).Some?
  {
  }

  /** A call that got beyond its checks without raising found its firmware readable when it began. */
  lemma {:induction false} FirmwareWasChecked(s: State, actions: seq<Action>, i: nat) returns (k: nat)
    requires Initial(s) && i < |StateAfter(s, actions).calls|
    requires var pc := StateAfter(s, actions).calls[i].pc; !pc.Begun? && !pc.Raised?
    ensures k < |actions| && CheckedAt(s, actions, k, i)
    decreases |actions|
  {
    var rest, a := actions[..|actions| - 1], actions[|actions| - 1];
    CheckStep(StateAfter(s, rest), a, i);
    if StateAfter(s, rest).calls[i].pc.Begun? {
      k := |rest|;
      assert actions[..k] == rest;
    } else {
      k := FirmwareWasChecked(s, rest, i);
      assert actions[..k] == rest[..k];
    }
  }

  // ---------- What readers see ----------

  /** This is the whole content of a file that stood in the directory at the start. */
  ghost predicate Original(start: FileSystem, c: Content) {
    exists e: string :: Entry(e) in start && start[Entry(e)] == File(c)
  }

  ghost predicate EntriesOriginal(start: FileSystem, fs: FileSystem) {
    forall e: string | Entry(e) in fs && fs[Entry(e)].File? :: Original(start, fs[Entry(e)].content)
  }

  ghost predicate SourceOriginal(start: FileSystem, c: Call) {
    c.source.Some? ==> Original(start, c.source.value)
  }

  ghost predicate AllOriginal(start: FileSystem, s: State) {
    EntriesOriginal(start, s.fs) && forall i: nat | i < |s.calls| :: SourceOriginal(start, s.calls[i])
  }

  lemma {:induction false} ResolvedIsOriginal(start: FileSystem, fs: FileSystem, n: Name, fuel: nat)
    requires LinksLeadToEntries(fs) && EntriesOriginal(start, fs) && n.Entry?
    requires Resolve(fs, n, fuel).Some?
    ensures Original(start, Resolve(fs, n, fuel).value)
    decreases fuel
  {
    if fs[n].Link? {
      ResolvedIsOriginal(start, fs, fs[n].dest, fuel - 1);
    }
  }

  lemma SourcesStayOriginal(start: FileSystem, s: State, a: Action, i: nat)
    requires Inv(s) && AllOriginal(start, s) && i < |Do(s, a).calls|
    ensures SourceOriginal(start, Do(s, a).calls[i])
  {
    if Do(s, a).calls[i].source.Some? {
      SourceStep(s, a, i);
      assert SourceOriginal(start, s.calls[i]);
      if Do(s, a).calls[i].source != s.calls[i].source {
        ResolvedIsOriginal(start, s.fs, Entry(s.calls[i].firmware), MAX_LINKS);
      }
    }
  }

  lemma EntriesStayOriginal(start: FileSystem, s: State, a: Action, e: string)
    requires Inv(s) && AllOriginal(start, s)
    requires Entry(e) in Do(s, a).fs && Do(s, a).fs[Entry(e)].File?
    ensures Original(start, Do(s, a).fs[Entry(e)].content)
  {
    var s' := Do(s, a);
    if !SameAt(s.fs, s'.fs, Entry(e)) {
      EntryChangesOnlyWhole(s, a, e);
      DoKeepsInv(s, a);
      SourcesStayOriginal(start, s, a, a.i);
      assert CallOk(s'.fs, s'.next, s'.calls[a.i]);
    }
  }

  lemma {:induction false} RunKeepsOriginal(s: State, actions: seq<Action>)
    requires Initial(s)
    ensures AllOriginal(s.fs, StateAfter(s, actions))
    decreases |actions|
  {
    if actions != [] {
      var rest, a := actions[..|actions| - 1], actions[|actions| - 1];
      RunKeepsOriginal(s, rest);
      RunKeepsInv(s, rest);
      var after := StateAfter(s, actions);
      forall i: nat | i < |after.calls|
        ensures SourceOriginal(s.fs, after.calls[i])
      {
        SourcesStayOriginal(s.fs, StateAfter(s, rest), a, i);
      }
      forall e: string | Entry(e) in after.fs && after.fs[Entry(e)].File?
        ensures Original(s.fs, after.fs[Entry(e)].content)
      {
        EntriesStayOriginal(s.fs, StateAfter(s, rest), a, e);
      }
    }
  }

  /** In every interleaving, whatever fails, whoever reads a served name, through any number of links, gets
      nothing or the whole content of one file that stood in the directory at the start. */
  lemma ReadersSeeWholeFiles(s: State, actions: seq<Action>, e: string)
    requires Initial(s) && Read(StateAfter(s, actions).fs, Entry(e)).Some?
    ensures Original(s.fs, Read(StateAfter(s, actions).fs, Entry(e)).value)
  {
    RunKeepsInv(s, actions);
    RunKeepsOriginal(s, actions);
    ResolvedIsOriginal(s.fs, StateAfter(s, actions).fs, Entry(e), MAX_LINKS);
  }

  // ---------- What a returning call has achieved ----------

  lemma {:induction false} UnaffectedRead(fs: FileSystem, fs': FileSystem, n: Name, t: Name, fuel: nat)
    requires LinksLeadToEntries(fs) && n.Entry?
    requires forall e: string | Entry(e) != t :: SameAt(fs, fs', Entry(e))
    requires !PassesThrough(fs, n, t, fuel)
    ensures Resolve(fs', n, fuel) == Resolve(fs, n, fuel)
    decreases fuel
  {
    if n in fs && fs[n].Link? && fuel > 0 {
      UnaffectedRead(fs, fs', fs[n].dest, t, fuel - 1);
    }
  }

  /** A link back to itself is never read, however many links are followed. */
  lemma {:induction false} LoopIsUnreadable(fs: FileSystem, fs': FileSystem, n: Name, t: Name, f: Name, g: nat, h: nat, fuel: nat)
    requires LinksLeadToEntries(fs) && n.Entry? && f.Entry?
    requires forall e: string | Entry(e) != t :: SameAt(fs, fs', Entry(e))
    requires t in fs' && fs'[t] == Link(f) && PassesThrough(fs, f, t, g)
    requires PassesThrough(fs, n, t, h)
    ensures Resolve(fs', n, fuel).None?
    decreases fuel
  {
    if fuel > 0 {
      if n == t {
        LoopIsUnreadable(fs, fs', f, t, f, g, g, fuel - 1);
      } else {
        LoopIsUnreadable(fs, fs', fs[n].dest, t, f, g, h - 1, fuel - 1);
      }
    }
  }

  lemma {:induction false} MoreLinksReadNoLess(fs: FileSystem, n: Name, fuel: nat)
    requires Resolve(fs, n, fuel).Some?
    ensures Resolve(fs, n, fuel + 1) == Resolve(fs, n, fuel)
    decreases fuel
  {
    if fs[n].Link? {
      MoreLinksReadNoLess(fs, fs[n].dest, fuel - 1);
    }
  }

  /** The call can be served through a symlink: the firmware is found without passing through the
      target and leaves the kernel one more link to follow. */
  ghost predicate LinkReaches(fs: FileSystem, c: Call) {
    && !PassesThrough(fs, Entry(c.firmware), Entry(c.target), MAX_LINKS - 1)
    && Resolve(fs, Entry(c.firmware), MAX_LINKS - 1).Some?
  }

  /** When a call returns, its target holds what it published. A copy reads as the content copied; a
      symlink reads as the firmware exactly when the firmware can be reached through it. */
  lemma ReturnServesFirmware(s: State, a: Action)
    requires Inv(s) && ReturnsBy(s, a)
    ensures var c, s' := s.calls[a.i], Do(s, a); var t := Entry(c.target);
            && t in s'.fs && s'.calls[a.i].published == Some(s'.fs[t])
            && (s'.fs[t].File? ==> c.source.Some? && Read(s'.fs, t) == c.source)
            && (s'.fs[t].Link? ==> s'.fs[t] == Link(Entry(c.firmware)))
            && (s'.fs[t].Link? && Read(s.fs, Entry(c.firmware)).Some? ==>
                  (Read(s'.fs, t) == Read(s.fs, Entry(c.firmware)) <==> LinkReaches(s.fs, c)))
  {
    var c, s' := s.calls[a.i], Do(s, a);
    var t, f := Entry(c.target), Entry(c.firmware);
    assert CallOk(s.fs, s.next, c);
    AdvanceFrame(s.fs, s.next, c, a.choice);
    if s'.fs[t].Link? {
      var g := MAX_LINKS - 1;
      assert Read(s'.fs, t) == Resolve(s'.fs, f, g);
      if PassesThrough(s.fs, f, t, g) {
        LoopIsUnreadable(s.fs, s'.fs, f, t, f, g, g, g);
      } else {
        UnaffectedRead(s.fs, s'.fs, f, t, g);
        if Resolve(s.fs, f, g).Some? {
          MoreLinksReadNoLess(s.fs, f, g);
        }
      }
    }
  }

  lemma ReturnedCopyReads(s: State, a: Action)
    requires Inv(s) && ReturnsBy(s, a)
    ensures var s' := Do(s, a); var c := s'.calls[a.i];
            && Entry(c.target) in s'.fs
            && (s'.fs[Entry(c.target)].File? ==> c.source.Some? && Read(s'.fs, Entry(c.target)) == c.source)
  {
    ReturnServesFirmware(s, a);
    assert s.calls[a.i].pc.Renaming?;
  }

  /** The target of call i holds a symlink, or a copy that reads as the firmware did when this call
      opened it. */
  ghost predicate ServesOwn(s: State, actions: seq<Action>, i: nat) {
    var after := StateAfter(s, actions);
    && i < |after.calls|
    && var t := Entry(after.calls[i].target);
       && t in after.fs
       && (after.fs[t].File? ==> exists k: nat :: k < |actions| && OpenedAt(s, actions, k, i, Read(after.fs, t)))
  }

  /** Whenever a call returns, its target serves nothing from before the call. */
  lemma ReturnedCopyIsOfThisCall(s: State, actions: seq<Action>)
    requires Initial(s) && actions != []
    requires ReturnsBy(StateAfter(s, actions[..|actions| - 1]), actions[|actions| - 1])
    ensures ServesOwn(s, actions, actions[|actions| - 1].i)
  {
    var i, after := actions[|actions| - 1].i, StateAfter(s, actions);
    RunKeepsInv(s, actions[..|actions| - 1]);
    ReturnedCopyReads(StateAfter(s, actions[..|actions| - 1]), actions[|actions| - 1]);
    if after.fs[Entry(after.calls[i].target)].File? {
      var k := SourceWasOpened(s, actions, i);
    }
  }

  lemma {:induction false} ReturnedStays(s: State, actions: seq<Action>, i: nat, start: nat, stop: nat)
    requires start <= stop <= |actions|
    requires i < |StateAfter(s, actions[..start]).calls| && StateAfter(s, actions[..start]).calls[i].pc.Returned?
    ensures i < |StateAfter(s, actions[..stop]).calls| && StateAfter(s, actions[..stop]).calls[i].pc.Returned?
    decreases stop
  {
    if start < stop {
      ReturnedStays(s, actions, i, start, stop - 1);
      StateAfterStep(s, actions, stop - 1);
    }
  }

  /** A call that does not return, because it raised or crashed, has changed no entry by any of its moves. */
  lemma UnreturnedCallChangedNothing(s: State, actions: seq<Action>, i: nat, k: nat, e: string)
    requires Initial(s) && k < |actions| && actions[k].Move? && actions[k].i == i
    requires i < |StateAfter(s, actions).calls| && !StateAfter(s, actions).calls[i].pc.Returned?
    ensures SameAt(StateAfter(s, actions[..k]).fs, StateAfter(s, actions[..k + 1]).fs, Entry(e))
  {
    var before := StateAfter(s, actions[..k]);
    assert actions[..|actions|] == actions;
    StateAfterStep(s, actions, k);
    RunKeepsInv(s, actions[..k]);
    if !SameAt(before.fs, Do(before, actions[k]).fs, Entry(e)) {
      EntryChangesOnlyWhole(before, actions[k], e);
      ReturnedStays(s, actions, i, k + 1, |actions|);
    }
  }

  // ---------- Temporaries ----------

  /** The move fails in a close or unlink whose temp exists: nothing later removes that temp. */
  ghost predicate Leaks(s: State, a: Action, i: nat) {
    && i < |s.calls| && a == Move(i, Fault)
    && (s.calls[i].pc.Closing? || s.calls[i].pc.Freeing?
        || (s.calls[i].pc.Cleaning? && s.calls[i].current.Some? && Temp(s.calls[i].current.value) in s.fs))
  }

  ghost predicate LeaksAt(s: State, actions: seq<Action>, k: nat, i: nat) {
    k < |actions| && Leaks(StateAfter(s, actions[..k]), actions[k], i)
  }

  ghost predicate LeakedSomewhere(s: State, actions: seq<Action>, i: nat) {
    exists k: nat :: LeaksAt(s, actions, k, i)
  }

  lemma LeakStep(s: State, a: Action, i: nat)
    requires Inv(s) && i < |s.calls|
    ensures Do(s, a).calls[i].leaked != {} <==> s.calls[i].leaked != {} || Leaks(s, a, i)
  {
    assert CallOk(s.fs, s.next, s.calls[i]);
  }

  lemma LeaksAtPrefix(s: State, actions: seq<Action>, n: nat, k: nat, i: nat)
    requires k < n <= |actions|
    ensures LeaksAt(s, actions[..n], k, i) <==> LeaksAt(s, actions, k, i)
  {
    assert actions[..n][..k] == actions[..k];
  }

  lemma LeakedSomewhereStep(s: State, actions: seq<Action>, i: nat)
    requires actions != []
    ensures var rest, a := actions[..|actions| - 1], actions[|actions| - 1];
            LeakedSomewhere(s, actions, i) <==> LeakedSomewhere(s, rest, i) || Leaks(StateAfter(s, rest), a, i)
  {
    var n := |actions| - 1;
    var rest := actions[..n];
    forall k: nat | k < n
      ensures LeaksAt(s, rest, k, i) <==> LeaksAt(s, actions, k, i)
    {
      LeaksAtPrefix(s, actions, n, k, i);
    }
    assert LeaksAt(s, actions, n, i) <==> Leaks(StateAfter(s, rest), actions[n], i);
  }

  lemma {:induction false} LeakedIff(s: State, actions: seq<Action>, i: nat)
    requires Initial(s) && i < |StateAfter(s, actions).calls|
    ensures StateAfter(s, actions).calls[i].leaked != {} <==> LeakedSomewhere(s, actions, i)
    decreases |actions|
  {
    if actions != [] {
      var rest, a := actions[..|actions| - 1], actions[|actions| - 1];
      var before := StateAfter(s, rest);
      RunKeepsInv(s, rest);
      LeakedSomewhereStep(s, actions, i);
      if i < |before.calls| {
        LeakedIff(s, rest, i);
        LeakStep(before, a, i);
      } else {
        NoLeakBeforeCall(s, rest, i);
      }
    }
  }

  lemma {:induction false} NoLeakBeforeCall(s: State, actions: seq<Action>, i: nat)
    requires |StateAfter(s, actions).calls| <= i
    ensures !LeakedSomewhere(s, actions, i)
    decreases |actions|
  {
    if actions != [] {
      NoLeakBeforeCall(s, actions[..|actions| - 1], i);
      LeakedSomewhereStep(s, actions, i);
    }
  }

  /** When a call has returned or raised, temps of its own are left exactly if one of its closes or
      unlinks failed on an existing temp, also when it fell back from a symlink to a copy. */
  lemma TempsLeftIffLeaked(s: State, actions: seq<Action>, i: nat)
    requires Initial(s) && i < |StateAfter(s, actions).calls|
    requires StateAfter(s, actions).calls[i].pc.Returned? || StateAfter(s, actions).calls[i].pc.Raised?
    ensures (exists id :: id in StateAfter(s, actions).calls[i].made && Temp(id) in StateAfter(s, actions).fs)
            <==> LeakedSomewhere(s, actions, i)
  {
    RunKeepsInv(s, actions);
    LeakedIff(s, actions, i);
    var after := StateAfter(s, actions);
    assert CallOk(after.fs, after.next, after.calls[i]);
    if id :| id in after.calls[i].leaked {
      assert id in after.calls[i].made && Temp(id) in after.fs;
    }
  }

  lemma StateAfterSnoc(s: State, actions: seq<Action>, a: Action)
    ensures StateAfter(s, actions + [a]) == Do(StateAfter(s, actions), a)
  {
    assert (actions + [a])[..|actions|] == actions;
  }

  /** One more move of the only call there is. */
  lemma SoloMove(s: State, actions: seq<Action>, before: State, ch: Choice) returns (longer: seq<Action>)
    requires StateAfter(s, actions) == before && |before.calls| == 1
    ensures longer == actions + [Move(0, ch)]
    ensures var (fs, next, c) := Advance(before.fs, before.next, before.calls[0], ch);
            StateAfter(s, longer) == State(fs, next, [c])
  {
    longer := actions + [Move(0, ch)];
    StateAfterSnoc(s, actions, Move(0, ch));
    var (fs, next, c) := Advance(before.fs, before.next, before.calls[0], ch);
    assert before.calls[0 := c] == [c];
  }

  lemma SoloStart(s: State, firmware: string, target: string) returns (actions: seq<Action>)
    requires s.calls == []
    ensures StateAfter(s, actions) == s.(calls := [Begin(firmware, target, true)])
  {
    var stage := Stage(firmware, target, true);
    actions := [] + [stage];
    StateAfterSnoc(s, [], stage);
  }

  /** A call whose first temp is left behind because closing it fails. */
  lemma CloseFails(s: State) returns (actions: seq<Action>)
    requires s == State(map[Entry("fw") := File([7])], 0, [])
    ensures StateAfter(s, actions)
            == State(s.fs[Temp(0) := File([])], 1, [Begin("fw", "pxe", true).(pc := Making(true), made := {0}, leaked := {0})])
  {
    var c := Begin("fw", "pxe", true);
    actions := SoloStart(s, "fw", "pxe");
    actions := SoloMove(s, actions, s.(calls := [c]), Go(0));
    actions := SoloMove(s, actions, s.(calls := [c.(pc := Making(false))]), Go(0));
    assert {} + {0 as nat} == {0};
    c := c.(pc := Closing(false), current := Some(0), made := {0});
    actions := SoloMove(s, actions, State(s.fs[Temp(0) := File([])], 1, [c]), Fault);
  }

  /** ... and which has fallen back to a copy with a second temp. */
  lemma FallsBack(s: State) returns (actions: seq<Action>)
    requires s == State(map[Entry("fw") := File([7])], 0, [])
    ensures StateAfter(s, actions)
            == State(s.fs[Temp(0) := File([])][Temp(1) := File([])], 2,
                     [Begin("fw", "pxe", true).(pc := Opening, current := Some(1), made := {0, 1}, leaked := {0})])
  {
    actions := CloseFails(s);
    var fs := s.fs[Temp(0) := File([])];
    var c := Begin("fw", "pxe", true).(pc := Making(true), made := {0}, leaked := {0});
    actions := SoloMove(s, actions, State(fs, 1, [c]), Go(0));
    assert {0 as nat} + {1} == {0, 1};
    c := c.(pc := Closing(true), current := Some(1), made := {0, 1});
    actions := SoloMove(s, actions, State(fs[Temp(1) := File([])], 2, [c]), Go(0));
  }

  /** A returned call can leave a temp behind: closing the first temp fails, and the fall-back copy
      succeeds with a second one. */
  lemma ReturnedWithTempLeft() returns (s: State, actions: seq<Action>)
    ensures Initial(s)
    ensures var after := StateAfter(s, actions);
            |after.calls| == 1 && after.calls[0].pc.Returned? && 0 in after.calls[0].made && Temp(0) in after.fs
  {
    s := State(map[Entry("fw") := File([7])], 0, []);
    actions := FallsBack(s);
    var fs := s.fs[Temp(0) := File([])][Temp(1) := File([])];
    var c := Begin("fw", "pxe", true).(pc := Opening, current := Some(1), made := {0, 1}, leaked := {0});
    actions := SoloMove(s, actions, State(fs, 2, [c]), Go(0));
    c := c.(pc := Copying(0), source := Some([7]));
    assert StateAfter(s, actions) == State(fs, 2, [c]);
    actions := SoloMove(s, actions, State(fs, 2, [c]), Go(0));
    assert [7][..1] == [7];
    fs := fs[Temp(1) := File([7])];
    actions := SoloMove(s, actions, State(fs, 2, [c.(pc := Copying(1))]), Go(0));
    actions := SoloMove(s, actions, State(fs, 2, [c.(pc := Renaming(true))]), Go(0));
  }

  /** A call that stages a firmware onto its own name, up to the point where its temp name is free. */
  lemma SelfStagingStarted(fw: string, s: State) returns (actions: seq<Action>)
    requires s.calls == [] && s.next == 0 && Temp(0) !in s.fs && Read(s.fs, Entry(fw)).Some?
    ensures StateAfter(s, actions)
            == State(s.fs, 1, [Begin(fw, fw, true).(pc := Linking, current := Some(0), made := {0})])
  {
    var c := Begin(fw, fw, true);
    actions := SoloStart(s, fw, fw);
    actions := SoloMove(s, actions, s.(calls := [c]), Go(0));
    actions := SoloMove(s, actions, s.(calls := [c.(pc := Making(false))]), Go(0));
    assert {} + {0 as nat} == {0};
    c := c.(pc := Closing(false), current := Some(0), made := {0});
    var fs := s.fs[Temp(0) := File([])];
    actions := SoloMove(s, actions, State(fs, 1, [c]), Go(0));
    actions := SoloMove(s, actions, State(fs, 1, [c.(pc := Freeing)]), Go(0));
    assert fs - {Temp(0)} == s.fs;
  }

  /** Staging a firmware onto its own name through a symlink returns, and loses the firmware. */
  lemma SelfStagingLosesFirmware(fw: string, content: Content) returns (s: State, actions: seq<Action>)
    ensures Initial(s) && Read(s.fs, Entry(fw)) == Some(content)
    ensures var after := StateAfter(s, actions);
            |after.calls| == 1 && after.calls[0].pc.Returned? && Read(after.fs, Entry(fw)).None?
  {
    s := State(map[Entry(fw) := File(content)], 0, []);
    actions := SelfStagingStarted(fw, s);
    var c, t := Begin(fw, fw, true).(pc := Linking, current := Some(0), made := {0}), Entry(fw);
    actions := SoloMove(s, actions, State(s.fs, 1, [c]), Go(0));
    actions := SoloMove(s, actions, State(s.fs[Temp(0) := Link(t)], 1, [c.(pc := Renaming(false))]), Go(0));
    LoopIsUnreadable(s.fs, StateAfter(s, actions).fs, t, t, t, 0, 0, MAX_LINKS);
  }

  // ---------- Which outcome a call has ----------

  /** The system call about to be made fails, in the symlink phase or (with `copying`) in the rest of
      the call. The unlink of a failure handler is in neither. */
  predicate Hindered(fs: FileSystem, c: Call, ch: Choice, copying: bool) {
    match c.pc
    case Begun | Opening => copying && (ch.Fault? || Read(fs, Entry(c.firmware)).None?)
    case Making(b) => b == copying && ch.Fault?
    case Closing(b) => b == copying && ch.Fault?
    case Renaming(b) => b == copying && ch.Fault?
    case Freeing | Linking => !copying && ch.Fault?
    case Copying(_) => copying && ch.Fault?
    case Cleaning(_) | Returned | Raised => false
  }

  ghost predicate Hinders(s: State, a: Action, i: nat, copying: bool) {
    a.Move? && a.i == i < |s.calls| && Hindered(s.fs, s.calls[i], a.choice, copying)
  }

  ghost predicate HinderedAt(s: State, actions: seq<Action>, k: nat, i: nat, copying: bool) {
    k < |actions| && Hinders(StateAfter(s, actions[..k]), actions[k], i, copying)
  }

  ghost predicate HinderedSomewhere(s: State, actions: seq<Action>, i: nat, copying: bool) {
    exists k: nat :: HinderedAt(s, actions, k, i, copying)
  }

  lemma HinderedSomewhereStep(s: State, actions: seq<Action>, i: nat, copying: bool)
    requires actions != []
    ensures var rest, a := actions[..|actions| - 1], actions[|actions| - 1];
            HinderedSomewhere(s, actions, i, copying)
            <==> HinderedSomewhere(s, rest, i, copying) || Hinders(StateAfter(s, rest), a, i, copying)
  {
    var n := |actions| - 1;
    var rest := actions[..n];
    forall k: nat | k < n
      ensures HinderedAt(s, rest, k, i, copying) <==> HinderedAt(s, actions, k, i, copying)
    {
      assert rest[..k] == actions[..k];
    }
    assert HinderedAt(s, actions, n, i, copying) <==> Hinders(StateAfter(s, rest), actions[n], i, copying);
  }

  lemma {:induction false} NotHinderedBeforeCall(s: State, actions: seq<Action>, i: nat, copying: bool)
    requires |StateAfter(s, actions).calls| <= i
    ensures !HinderedSomewhere(s, actions, i, copying)
    decreases |actions|
  {
    if actions != [] {
      NotHinderedBeforeCall(s, actions[..|actions| - 1], i, copying);
      HinderedSomewhereStep(s, actions, i, copying);
    }
  }

  predicate Linkward(c: Call) {
    match c.pc
    case Making(copying) => !copying
    case Closing(copying) => !copying
    case Renaming(copying) => !copying
    case Cleaning(copying) => !copying
    case Freeing | Linking => true
    case Returned => c.published.Some? && c.published.value.Link?
    case Begun | Opening | Copying(_) | Raised => false
  }

  predicate GaveUp(c: Call) {
    c.pc.Raised? || c.pc == Cleaning(true)
  }

  /** The symlink phase has failed and the call has not. */
  predicate FellBack(c: Call) {
    c.symlink && !c.pc.Begun? && !GaveUp(c) && (Linkward(c) ==> c.pc.Cleaning?)
  }

  lemma OutcomeStep(s: State, a: Action, i: nat)
    requires Inv(s) && i < |s.calls| && (Linkward(s.calls[i]) ==> s.calls[i].symlink)
    ensures var c, c' := s.calls[i], Do(s, a).calls[i];
            && (Linkward(c') ==> c'.symlink)
            && (GaveUp(c') <==> GaveUp(c) || Hinders(s, a, i, true))
            && (!GaveUp(c') ==> (FellBack(c') <==> FellBack(c) || Hinders(s, a, i, false)))
  {
    assert CallOk(s.fs, s.next, s.calls[i]);
  }

  lemma {:induction false} OutcomeOfRun(s: State, actions: seq<Action>, i: nat)
    requires Initial(s) && i < |StateAfter(s, actions).calls|
    ensures var c := StateAfter(s, actions).calls[i];
            && (Linkward(c) ==> c.symlink)
            && (GaveUp(c) <==> HinderedSomewhere(s, actions, i, true))
            && (!GaveUp(c) ==> (FellBack(c) <==> HinderedSomewhere(s, actions, i, false)))
    decreases |actions|
  {
    if actions != [] {
      var rest, a := actions[..|actions| - 1], actions[|actions| - 1];
      RunKeepsInv(s, rest);
      HinderedSomewhereStep(s, actions, i, true);
      HinderedSomewhereStep(s, actions, i, false);
      if i < |StateAfter(s, rest).calls| {
        OutcomeOfRun(s, rest, i);
        OutcomeStep(StateAfter(s, rest), a, i);
      } else {
        NotHinderedBeforeCall(s, rest, i, true);
        NotHinderedBeforeCall(s, rest, i, false);
      }
    }
  }

  /** In every interleaving, a finished call raised exactly if a system call of its copy phase or its
      checks failed. If it returned, it serves a symlink exactly if one was asked for and nothing in the
      symlink phase failed, and a copy otherwise. */
  lemma OutcomeIff(s: State, actions: seq<Action>, i: nat)
    requires Initial(s) && i < |StateAfter(s, actions).calls|
    requires StateAfter(s, actions).calls[i].pc.Returned? || StateAfter(s, actions).calls[i].pc.Raised?
    ensures var c := StateAfter(s, actions).calls[i];
            && (c.pc.Raised? <==> HinderedSomewhere(s, actions, i, true))
            && (c.pc.Returned? ==>
                  && c.published.Some?
                  && (c.published.value.Link? <==> c.symlink && !HinderedSomewhere(s, actions, i, false)))
  {
    RunKeepsInv(s, actions);
    var after := StateAfter(s, actions);
    assert CallOk(after.fs, after.next, after.calls[i]);
    OutcomeOfRun(s, actions, i);
  }

  // ---------- Progress ----------

  /** System calls that may still follow, counted along the longest path: link, fall back, copy. */
  function Distance(pc: Pc): nat {
    match pc
    case Begun => 13
    case Making(copying) => if copying then 6 else 12
    case Closing(copying) => if copying then 5 else 11
    case Freeing => 10
    case Linking => 9
    case Renaming(copying) => if copying then 2 else 8
    case Cleaning(copying) => if copying then 1 else 7
    case Opening => 4
    case Copying(_) => 3
    case Returned | Raised => 0
  }

  function BytesLeft(c: Call): int {
    if c.pc.Copying? && c.source.Some? then |c.source.value| - c.pc.written else 0
  }

  /** Every move of an unfinished call, successful or not, brings it nearer to returning or raising. */
  lemma MoveMakesProgress(fs: FileSystem, next: nat, c: Call, ch: Choice)
    requires CallOk(fs, next, c) && !c.pc.Returned? && !c.pc.Raised?
    ensures var c' := Advance(fs, next, c, ch).2;
            || Distance(c'.pc) < Distance(c.pc)
            || (Distance(c'.pc) == Distance(c.pc) && 0 <= BytesLeft(c') < BytesLeft(c))
  {
  }
}
