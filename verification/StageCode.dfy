/** The code of `stage` in tftpos/staging.py, with its nested failure handlers, run by one caller over a
    directory. Every system call may fail as an oracle decides. The code is tied to the state machine of
    module Staging: each system call is one move of the machine, and the structured control flow reaches
    each of them in exactly the program-counter state the machine has for it. */
module StageCode {
  import opened Common
  import opened Staging

  /** The machine's call after a series of moves that nobody else interrupts. */
  function Drive(fs: FileSystem, next: nat, c: Call, moves: seq<Choice>): (FileSystem, nat, Call) {
    if moves == [] then (fs, next, c)
    else
      var (fs', next', c') := Drive(fs, next, c, moves[..|moves| - 1]);
      Advance(fs', next', c', moves[|moves| - 1])
  }

  lemma DriveSnoc(fs: FileSystem, next: nat, c: Call, moves: seq<Choice>, ch: Choice)
    ensures var (fs', next', c') := Drive(fs, next, c, moves);
            Drive(fs, next, c, moves + [ch]) == Advance(fs', next', c', ch)
  {
    assert (moves + [ch])[..|moves|] == moves;
  }

  function MovesOf(moves: seq<Choice>): seq<Action> {
    seq(|moves|, i requires 0 <= i < |moves| => Move(0, moves[i]))
  }

  /** Driving a call is a run of the system in which it is the only call. */
  lemma {:induction false} DriveIsRun(s: State, firmware: string, target: string, symlink: bool, moves: seq<Choice>)
    requires s.calls == []
    ensures var (fs, next, c) := Drive(s.fs, s.next, Begin(firmware, target, symlink), moves);
            StateAfter(s, [Stage(firmware, target, symlink)] + MovesOf(moves)) == State(fs, next, [c])
    decreases |moves|
  {
    var stage := Stage(firmware, target, symlink);
    if moves == [] {
      StateAfterSnoc(s, [], stage);
      assert [] + [stage] == [stage] + MovesOf(moves);
      assert [] + [Begin(firmware, target, symlink)] == [Begin(firmware, target, symlink)];
    } else {
      var init, last := moves[..|moves| - 1], moves[|moves| - 1];
      DriveIsRun(s, firmware, target, symlink, init);
      var (fs, next, c) := Drive(s.fs, s.next, Begin(firmware, target, symlink), init);
      var longer := SoloMove(s, [stage] + MovesOf(init), State(fs, next, [c]), last);
      assert longer == [stage] + MovesOf(moves);
    }
  }

  datatype OSError = OSError

  class Directory {
    var fs: FileSystem
    /** The next name `mkstemp` will issue. */
    var next: nat
    /** The oracle, and how often it has been asked. */
    const choose: nat -> Choice
    var asked: nat

    /** The machine beside the code: where it started, its moves, its call. */
    ghost var fs0: FileSystem
    ghost var next0: nat
    ghost var call0: Call
    ghost var moves: seq<Choice>
    ghost var call: Call

    constructor (fs: FileSystem, next: nat, choose: nat -> Choice)
      ensures this.fs == fs && this.next == next && this.choose == choose
    {
      this.fs, this.next, this.choose, asked := fs, next, choose, 0;
    }

    /** Code and machine are in step. */
    ghost predicate InStep()
      reads this
    {
      Drive(fs0, next0, call0, moves) == (fs, next, call)
    }

    ghost predicate At(pc: Pc)
      reads this
    {
      InStep() && call.pc == pc && call.firmware == call0.firmware && call.target == call0.target
    }

    twostate predicate SameStart()
      reads this
    {
      fs0 == old(fs0) && next0 == old(next0) && call0 == old(call0)
    }

    /** Asks the oracle about the system call that is about to be made, and moves the machine. */
    method Ask() returns (ch: Choice, ghost after: (FileSystem, nat, Call))
      requires InStep()
      modifies this`asked, this`moves, this`call
      ensures after == Advance(fs, next, old(call), ch) && call == after.2
      ensures Drive(fs0, next0, call0, moves) == after
    {
      ch := choose(asked);
      asked := asked + 1;
      DriveSnoc(fs0, next0, call0, moves, ch);
      after := Advance(fs, next, call, ch);
      moves, call := moves + [ch], after.2;
    }

    // ---------- System calls ----------

    /** The checks on the firmware and the creation of the directory. */
    method Prepare(firmware: string) returns (ok: bool)
      requires At(Begun) && call.firmware == firmware
      modifies this
      ensures SameStart() && call.symlink == old(call.symlink)
      ensures At(if ok then Making(!call.symlink) else Raised)
    {
      var ch, after := Ask();
      ok := ch.Go? && Read(fs, Entry(firmware)).Some?;
    }

    method Mkstemp(ghost copying: bool) returns (tmp: Option<nat>)
      requires At(Making(copying))
      modifies this
      ensures SameStart()
      ensures At(if tmp.Some? then Closing(copying) else AfterFailure(copying))
      ensures tmp.Some? ==> call.current == tmp
    {
      var ch, after := Ask();
      if ch.Fault? {
        return None;
      }
      tmp := Some(next);
      fs := fs[Temp(next) := File([])];
      next := next + 1;
    }

    method Close(ghost copying: bool) returns (ok: bool)
      requires At(Closing(copying))
      modifies this
      ensures SameStart() && (ok ==> call.current == old(call.current))
      ensures At(if !ok then AfterFailure(copying) else if copying then Opening else Freeing)
    {
      var ch, after := Ask();
      ok := ch.Go?;
    }

    /** The unlink that frees the temp name for the symlink. */
    method FreeName(tmp: nat) returns (ok: bool)
      requires At(Freeing) && call.current == Some(tmp)
      modifies this
      ensures SameStart() && (ok ==> call.current == Some(tmp))
      ensures At(if ok then Linking else AfterFailure(false))
    {
      var ch, after := Ask();
      if ch.Fault? {
        return false;
      }
      fs := fs - {Temp(tmp)};
      return true;
    }

    method Symlink(firmware: string, tmp: nat) returns (ok: bool)
      requires At(Linking) && call.current == Some(tmp) && call.firmware == firmware
      modifies this
      ensures SameStart() && call.current == Some(tmp)
      ensures At(if ok then Renaming(false) else Cleaning(false))
    {
      var ch, after := Ask();
      if ch.Fault? || Temp(tmp) in fs {
        return false;
      }
      fs := fs[Temp(tmp) := Link(Entry(firmware))];
      return true;
    }

    /** The start of `copy2`: opens both files. */
    method OpenFiles(firmware: string, tmp: nat) returns (content: Option<Content>)
      requires At(Opening) && call.current == Some(tmp) && call.firmware == firmware
      modifies this
      ensures SameStart() && call.current == Some(tmp) && (content.Some? ==> call.source == content)
      ensures At(if content.Some? then Copying(0) else Cleaning(true))
    {
      var ch, after := Ask();
      content := Read(fs, Entry(firmware));
      if ch.Fault? || content.None? {
        return None;
      }
      fs := fs[Temp(tmp) := File([])];
    }

    /** Writes a further piece, or, when all is written, copies the metadata. */
    method WritePiece(content: Content, written: nat, tmp: nat) returns (ok: bool, upTo: nat)
      requires At(Copying(written)) && call.current == Some(tmp) && call.source == Some(content) && written <= |content|
      modifies this
      ensures SameStart() && call.current == Some(tmp) && call.source == Some(content)
      ensures written <= upTo <= |content| && (ok && written < |content| ==> written < upTo)
      ensures At(if !ok then Cleaning(true) else if written == |content| then Renaming(true) else Copying(upTo))
    {
      var ch, after := Ask();
      if ch.Fault? {
        return false, written;
      }
      if written == |content| {
        return true, written;
      }
      upTo := if 1 <= ch.bytes <= |content| - written then written + ch.bytes else |content|;
      fs := fs[Temp(tmp) := File(content[..upTo])];
      return true, upTo;
    }

    method Copy2(firmware: string, tmp: nat) returns (ok: bool)
      requires At(Opening) && call.current == Some(tmp) && call.firmware == firmware
      modifies this
      ensures SameStart() && call.current == Some(tmp)
      ensures At(if ok then Renaming(true) else Cleaning(true))
    {
      var content := OpenFiles(firmware, tmp);
      if content.None? {
        return false;
      }
      var written := 0;
      while written < |content.value|
        invariant SameStart() && call.current == Some(tmp) && call.source == content
        invariant written <= |content.value| && At(Copying(written))
      {
        var more;
        more, written := WritePiece(content.value, written, tmp);
        if !more {
          return false;
        }
      }
      ok, written := WritePiece(content.value, written, tmp);
    }

    method Replace(tmp: nat, target: string, ghost copying: bool) returns (ok: bool)
      requires At(Renaming(copying)) && call.current == Some(tmp) && call.target == target
      modifies this
      ensures SameStart() && (!ok ==> call.current == Some(tmp))
      ensures At(if ok then Returned else Cleaning(copying))
    {
      var ch, after := Ask();
      if ch.Fault? || Temp(tmp) !in fs {
        return false;
      }
      var node := fs[Temp(tmp)];
      fs := (fs - {Temp(tmp)})[Entry(target) := node];
      return true;
    }

    /** The unlink of a failure handler; its own failure is swallowed. */
    method CleanUp(tmp: nat, ghost copying: bool)
      requires At(Cleaning(copying)) && call.current == Some(tmp)
      modifies this
      ensures SameStart() && At(AfterFailure(copying))
    {
      var ch, after := Ask();
      if Temp(tmp) in fs && ch.Go? {
        fs := fs - {Temp(tmp)};
      }
    }

    // ---------- stage ----------

    /** Places the firmware through a symlink; any failure in it falls back to a copy. */
    method Stage(firmware: string, target: string, symlink: bool) returns (ok: bool)
      modifies this
      ensures fs0 == old(fs) && next0 == old(next) && call0 == Begin(firmware, target, symlink)
      ensures At(if ok then Returned else Raised)
    {
      fs0, next0, call0, moves, call := fs, next, Begin(firmware, target, symlink), [], Begin(firmware, target, symlink);
      var prepared := Prepare(firmware);
      if !prepared {
        return false;
      }
      if symlink {
        var linked := StageLink(firmware, target);
        if linked {
          return true;
        }
        ok := StageCopy(firmware, target);
      } else {
        ok := StageCopy(firmware, target);
      }
    }

    method StageLink(firmware: string, target: string) returns (ok: bool)
      requires At(Making(false)) && call.firmware == firmware && call.target == target
      modifies this
      ensures SameStart() && At(if ok then Returned else Making(true))
    {
      var tmp := Mkstemp(false);
      if tmp.None? {
        return false;
      }
      var closed := Close(false);
      if !closed {
        return false;
      }
      var freed := FreeName(tmp.value);
      if !freed {
        return false;
      }
      var linked := Symlink(firmware, tmp.value);
      if linked {
        var replaced := Replace(tmp.value, target, false);
        if replaced {
          return true;
        }
      }
      CleanUp(tmp.value, false);
      return false;
    }

    method StageCopy(firmware: string, target: string) returns (ok: bool)
      requires At(Making(true)) && call.firmware == firmware && call.target == target
      modifies this
      ensures SameStart() && At(if ok then Returned else Raised)
    {
      var tmp := Mkstemp(true);
      if tmp.None? {
        return false;
      }
      var closed := Close(true);
      if !closed {
        return false;
      }
      var copied := Copy2(firmware, tmp.value);
      if copied {
        var replaced := Replace(tmp.value, target, true);
        if replaced {
          return true;
        }
      }
      CleanUp(tmp.value, true);
      return false;
    }

    /** Says whether there was such an entry; an unlink that fails for another reason raises. */
    method Unstage(name: string) returns (r: Result<bool, OSError>)
      modifies this`fs, this`asked
      ensures r == if choose(old(asked)).Fault? then Err(OSError) else Ok(Entry(name) in old(fs))
      ensures fs == if r == Ok(true) then old(fs) - {Entry(name)} else old(fs)
      ensures forall calls: seq<Call> ::
                State(fs, next, calls) == Do(State(old(fs), next, calls), Action.Unstage(name, choose(old(asked))))
    {
      var ch := choose(asked);
      asked := asked + 1;
      if ch.Fault? {
        return Err(OSError);
      }
      if Entry(name) !in fs {
        assert fs - {Entry(name)} == fs;
        return Ok(false);
      }
      fs := fs - {Entry(name)};
      return Ok(true);
    }
  }
}
