/** Writing aof_buf to the open INCR file: the write loop, short writes and their
    undoing, and the fsync bookkeeping of flushAppendOnlyFile. */
module AofFlush {
  import opened Resp
  import opened AofLoad

  datatype Policy = Always | Everysec | Never

  /** One answer of write(2): that many bytes, EINTR, or a real error. */
  datatype Answer = Wrote(n: nat) | Interrupted | WriteError

  /** Configuration, clock and the answers of the operating system for one flush. */
  datatype FlushEnv = FlushEnv(
    policy: Policy, force: bool, now: int, fsyncInProgress: bool,
    noFsyncOnRewrite: bool, activeChild: bool,
    answers: seq<Answer>, truncateOk: bool, fsyncOk: bool)

  datatype Outcome =
    | Idle          // nothing buffered
    | Postponed     // background fsync still running
    | FullWrite
    | ShortUndone   // part was written and removed again
    | ShortKept     // part was written and stays
    | NothingWritten
    | Exit          // the process gives up (policy always)

  function Zeros(n: nat): Bytes { seq(n, _ => 0) }

  /** The file after `data` was written at offset `off`, with a hole of zero bytes if
      the offset lies beyond the end. */
  function Spliced(content: Bytes, off: nat, data: Bytes): Bytes {
    if data == [] then content
    else if off > |content| then content + Zeros(off - |content|) + data
    else if off + |data| >= |content| then content[..off] + data
    else content[..off] + data + content[off + |data|..]
  }

  lemma SplicedNothing(content: Bytes, off: nat)
    ensures Spliced(content, off, []) == content
  {}

  lemma SplicedTwice(content: Bytes, off: nat, a: Bytes, b: Bytes)
    ensures Spliced(Spliced(content, off, a), off + |a|, b) == Spliced(content, off, a + b)
  {
    assert a == [] ==> a + b == b;
    assert b == [] ==> a + b == a;
    if a != [] && b != [] {
      if off + |a| >= |content| {
        SplicedAtTheEnd(content, off, a, b);
      } else {
        SplicedInside(content, off, a, b);
      }
    }
  }

  lemma SplicedAtTheEnd(content: Bytes, off: nat, a: Bytes, b: Bytes)
    requires a != [] && b != [] && off + |a| >= |content|
    ensures Spliced(Spliced(content, off, a), off + |a|, b) == Spliced(content, off, a + b)
  {
    var front := if off > |content| then content + Zeros(off - |content|) else content[..off];
    assert Spliced(content, off, a) == front + a && |front| == off;
    assert (front + a)[..off + |a|] == front + a;
    assert front + a + b == front + (a + b);
  }

  lemma SplicedInside(content: Bytes, off: nat, a: Bytes, b: Bytes)
    requires a != [] && b != [] && off + |a| < |content|
    ensures Spliced(Spliced(content, off, a), off + |a|, b) == Spliced(content, off, a + b)
  {
    var front, n := content[..off], off + |a| + |b|;
    var once := Spliced(content, off, a);
    assert once == front + a + content[off + |a|..];
    assert once[..off + |a|] == front + a;
    assert front + a + b == front + (a + b);
    if n < |content| { assert once[n..] == content[n..]; }
  }

  /** Writing at an offset appends if and only if the offset is the end of the file. */
  lemma WriteAppends(content: Bytes, off: nat, data: Bytes)
    ensures Spliced(content, off, data) == content + data <==> data == [] || off == |content|
  {
    if off == |content| { assert content[..off] == content; }
    if data == [] { assert content + data == content; }
    assert |content + data| == |content| + |data|;
  }

  /** How many of `len` bytes the successive write(2) calls take. */
  function BytesWritten(len: nat, answers: seq<Answer>): (n: nat)
    ensures n <= len
    decreases answers
  {
    if len == 0 || answers == [] then 0
    else match answers[0]
      case WriteError => 0
      case Interrupted => BytesWritten(len, answers[1..])
      case Wrote(k) => if k >= len then len else k + BytesWritten(len - k, answers[1..])
  }

  /** What becomes of a buffer of `len` bytes, before any fsync. */
  function WriteOutcome(env: FlushEnv, len: nat): Outcome {
    var n := BytesWritten(len, env.answers);
    if n == len then FullWrite
    else if env.policy == Always then Exit
    else if n == 0 then NothingWritten
    else if env.truncateOk then ShortUndone
    else ShortKept
  }

  /** How many bytes of the buffer are in the file afterwards. */
  function BytesKept(env: FlushEnv, len: nat): (n: nat)
    ensures n <= len
  {
    var n := BytesWritten(len, env.answers);
    if n < len && env.truncateOk then 0 else n
  }

  /** With policy always the process gives up when it has to sync and cannot. */
  predicate SyncFails(env: FlushEnv) {
    env.policy == Always && !env.fsyncOk && !(env.noFsyncOnRewrite && env.activeChild)
  }

  lemma {:induction false} LoadThrough(cs: seq<Argv>, tail: Bytes, off: nat, p: Progress, env: Env)
    requires GoodLog(cs, env)
    ensures var size := off + |EncodeAll(cs)| + |tail|;
            LoadFrom(EncodeAll(cs) + tail, size, p, env) ==
            LoadFrom(tail, size, After(p, cs, off, env), env)
    decreases cs
  {
    hide LoadFrom, EncodeCommand, Advance;
    if cs == [] {
      assert EncodeAll(cs) + tail == tail;
    } else {
      var more := EncodeAll(cs[1..]) + tail;
      var e := |EncodeCommand(cs[0])|;
      assert EncodeAll(cs) + tail == EncodeCommand(cs[0]) + more;
      LoadStep(cs[0], more, off, p, env);
      LoadThrough(cs[1..], tail, off + e, Advance(p, cs[0], off + e, env), env);
    }
  }

  /** What a write at a stale offset costs: behind whole commands the hole of zero
      bytes makes the file unloadable, under every configuration. */
  lemma HoleRefusesToLoad(cs: seq<Argv>, off: nat, data: Bytes, env: Env)
    requires GoodLog(cs, env) && off > |EncodeAll(cs)| && data != []
    ensures Load(Spliced(EncodeAll(cs), off, data), env).status == AofFailed
  {
    hide ReadCommand, EncodeAll, After;
    var tail := Zeros(off - |EncodeAll(cs)|) + data;
    var f := Spliced(EncodeAll(cs), off, data);
    assert f == EncodeAll(cs) + tail;
    LoadThrough(cs, tail, 0, START, env);
    ZeroIsNoCommand(tail);
  }

  lemma ZeroIsNoCommand(s: Bytes)
    requires s != [] && s[0] == 0
    ensures ReadCommand(s) == BadFormat
  {
    assert ReadLine(s).text[0] == s[0];
  }

  /** The open file descriptor with the server fields that belong to it. */
  class AofFile {
    const append: bool      // opened with O_APPEND
    var content: Bytes
    var offset: nat
    var buf: Bytes          // server.aof_buf
    var lastIncrSize: nat
    var fsyncOffset: nat    // server.aof_last_incr_fsync_offset
    var lastFsync: int
    var postponedStart: int
    var writeOk: bool
    ghost var durable: nat  // bytes known to be on disk

    constructor (append: bool, content: Bytes, buf: Bytes)
      ensures this.append == append && this.content == content && this.buf == buf
      ensures Tracks() && durable == fsyncOffset
    {
      this.append := append;
      this.content := content;
      this.offset := |content|;
      this.buf := buf;
      this.lastIncrSize := |content|;
      this.fsyncOffset := |content|;
      this.lastFsync := 0;
      this.postponedStart := 0;
      this.writeOk := true;
      this.durable := |content|;
    }

    /** Where the next write lands. */
    ghost function Position(): nat
      reads this
    {
      if append then |content| else offset
    }

    /** The next write lands at the end of the file. */
    ghost predicate InSync()
      reads this
    {
      Position() == |content|
    }

    /** The sizes agree, and the next write overwrites nothing. */
    ghost predicate Sized()
      reads this
    {
      lastIncrSize == |content| <= Position() && durable <= |content|
    }

    ghost predicate Tracks()
      reads this
    {
      InSync() && Sized()
    }

    /** A background fsync is running and the write may still wait for it. */
    ghost predicate Postpones(env: FlushEnv)
      reads this
    {
      env.policy == Everysec && !env.force && env.fsyncInProgress && (postponedStart == 0 || env.now - postponedStart < 2)
    }

    /** write(2) of a whole chunk at the descriptor's position. */
    method WriteChunk(chunk: Bytes)
      requires chunk != []
      modifies this`content, this`offset
      ensures var at := old(Position());
              content == Spliced(old(content), at, chunk) && offset == at + |chunk|
    {
      var at := if append then |content| else offset;
      content := Spliced(content, at, chunk);
      offset := at + |chunk|;
    }

    /** The state after the first `total` bytes of `data` were written from `start` on. */
    ghost predicate WrittenUpTo(before: Bytes, start: nat, data: Bytes, total: nat)
      requires total <= |data|
      reads this
    {
      && content == Spliced(before, start, data[..total])
      && (append ==> start == |before|)
      && (!append || total > 0 ==> offset == start + total)
    }

    lemma WriteMore(before: Bytes, start: nat, data: Bytes, total: nat, n: nat)
      requires total + n <= |data| && n > 0 && WrittenUpTo(before, start, data, total)
      ensures Position() == start + total
      ensures Spliced(content, start + total, data[total..total + n]) == Spliced(before, start, data[..total + n])
    {
      SplicedTwice(before, start, data[..total], data[total..total + n]);
      assert data[..total] + data[total..total + n] == data[..total + n];
    }

    /** aofWrite: retries short and interrupted writes. The answers are those of the
        successive write(2) calls; when they run out the next call fails. */
    method AofWrite(data: Bytes, answers: seq<Answer>) returns (nwritten: int)
      requires data != []
      modifies this`content, this`offset
      ensures var n := BytesWritten(|data|, answers);
              && nwritten == (if n == 0 then -1 else n)
              && content == Spliced(old(content), old(Position()), data[..n])
              && offset == if n == 0 then old(offset) else old(Position()) + n
    {
      hide Spliced;
      var total, k := 0, 0;
      ghost var before, start := content, Position();
      assert data[..0] == [] && Spliced(before, start, []) == before by { SplicedNothing(before, start); }
      assert answers[0..] == answers;
      while total < |data|
        invariant 0 <= total <= |data| && 0 <= k <= |answers|
        invariant WrittenUpTo(before, start, data, total)
        invariant total == 0 ==> offset == old(offset)
        invariant total + BytesWritten(|data| - total, answers[k..]) == BytesWritten(|data|, answers)
        decreases |answers| - k
      {
        var answer := if k < |answers| then answers[k] else WriteError;
        assert k < |answers| ==> answers[k..][1..] == answers[k + 1..];
        if answer.WriteError? {
          return if total > 0 then total else -1;
        }
        k := k + 1;
        if answer.Interrupted? { continue; }
        var n := if answer.n > |data| - total then |data| - total else answer.n;
        if n > 0 {
          WriteMore(before, start, data, total, n);
          WriteChunk(data[total..total + n]);
          total := total + n;
        }
      }
      return total;
    }

    /** One write of the whole buffer and what becomes of a short one. */
    method WriteBuffer(env: FlushEnv) returns (o: Outcome)
      requires Sized() && buf != []
      modifies this`content, this`offset, this`buf, this`lastIncrSize, this`postponedStart, this`writeOk
      ensures o == WriteOutcome(env, |old(buf)|)
      ensures var n := BytesKept(env, |old(buf)|);
              && content == Spliced(old(content), old(Position()), old(buf)[..n])
              && (o != Exit ==> buf == old(buf)[n..] && lastIncrSize == |old(content)| + n)
      ensures o == FullWrite <==> buf == [] && o != Exit
      ensures Position() == if append then |content|
                            else old(offset) + BytesWritten(|old(buf)|, env.answers)
      ensures o in {ShortUndone, ShortKept, NothingWritten} ==> !writeOk
    {
      hide Spliced;
      var nwritten := AofWrite(buf, env.answers);
      postponedStart := 0;
      if nwritten == |buf| {
        writeOk := true;
        lastIncrSize := lastIncrSize + nwritten;
        buf := [];
        return FullWrite;
      }
      o := NothingWritten;
      assert buf[..0] == [];
      SplicedNothing(old(content), old(Position()));
      if nwritten != -1 {
        if env.truncateOk {
          CutBack(old(content), old(Position()), buf[..nwritten]);
          content := content[..lastIncrSize];
          nwritten := -1;
          o := ShortUndone;
        } else {
          o := ShortKept;
        }
      }
      if env.policy == Always { return Exit; }
      writeOk := false;
      if nwritten > 0 {
        lastIncrSize := lastIncrSize + nwritten;
        buf := buf[nwritten..];
      }
    }

    /** The whole outcome follows from the state and the answers of the operating system. */
    method Flush(env: FlushEnv) returns (o: Outcome)
      requires Sized()
      modifies this
      ensures o == if old(buf) == [] then (if old(fsyncOffset != lastIncrSize) && SyncFails(env) then Exit else Idle)
                   else if old(Postpones(env)) then Postponed
                   else if WriteOutcome(env, |old(buf)|) == FullWrite && SyncFails(env) then Exit
                   else WriteOutcome(env, |old(buf)|)
      ensures var n := if old(Postpones(env)) then 0 else BytesKept(env, |old(buf)|);
              && content == Spliced(old(content), old(Position()), old(buf)[..n])
              && (o != Exit ==> buf == old(buf)[n..] && lastIncrSize == |old(content)| + n)
      // nothing that was fed is lost or reordered, and the size stays exact
      ensures old(InSync()) ==> old(content) <= content <= old(content) + old(buf)
      ensures old(InSync()) && o != Exit ==> content + buf == old(content) + old(buf)
      // the next write lands at the end, except after an undone short write without O_APPEND
      ensures old(InSync()) && o != Exit ==> Sized() && (InSync() <==> !(o == ShortUndone && !append))
      ensures old(Sized()) && o == ShortUndone ==>
                Sized() && Position() == if append then |content| else old(offset) + BytesWritten(|old(buf)|, env.answers)
      ensures o in {ShortUndone, ShortKept, NothingWritten} ==> !writeOk
      ensures durable <= |content|
      // policy always: a normal return means written and synced
      ensures env.policy == Always && o != Exit ==>
                && buf == []
                && (!(env.noFsyncOnRewrite && env.activeChild) ==>
                      fsyncOffset == lastIncrSize && (old(fsyncOffset) <= old(durable) ==> durable == |content|))
    {
      hide Spliced, BytesWritten, WriteOutcome, BytesKept;
      assert buf[..0] == [] && buf[0..] == buf;
      SplicedNothing(content, Position());
      OutcomeFacts(env, |buf|);
      KeptFacts(content, Position(), buf, BytesKept(env, |buf|));
      if buf == [] {
        if env.policy == Everysec && fsyncOffset != lastIncrSize && env.now > lastFsync
           && !env.fsyncInProgress {
          o := TryFsync(env, false, Idle);
        } else if env.policy == Always && fsyncOffset != lastIncrSize {
          o := TryFsync(env, false, Idle);
        } else {
          o := Idle;
        }
        return;
      }
      var syncInProgress := env.policy == Everysec && env.fsyncInProgress;
      if env.policy == Everysec && !env.force && syncInProgress {
        if postponedStart == 0 {
          postponedStart := env.now;
          return Postponed;
        } else if env.now - postponedStart < 2 {
          return Postponed;
        }
      }
      o := WriteBuffer(env);
      if o == FullWrite { o := TryFsync(env, syncInProgress, FullWrite); }
    }

    /** The try_fsync label. */
    method TryFsync(env: FlushEnv, syncInProgress: bool, done: Outcome) returns (o: Outcome)
      requires done in {Idle, FullWrite} && durable <= |content|
      modifies this`fsyncOffset, this`lastFsync, this`durable
      ensures durable <= |content|
      ensures o == if SyncFails(env) then Exit else done
      ensures env.policy == Always && o == done && !(env.noFsyncOnRewrite && env.activeChild) ==>
                fsyncOffset == lastIncrSize && durable == |content|
    {
      if env.noFsyncOnRewrite && env.activeChild { return done; }
      if env.policy == Always {
        if !env.fsyncOk { return Exit; }
        fsyncOffset, lastFsync := lastIncrSize, env.now;
        durable := |content|;
      } else if env.policy == Everysec && env.now > lastFsync {
        if !syncInProgress { fsyncOffset := lastIncrSize; }
        lastFsync := env.now;
      }
      return done;
    }
  }

  /** Cutting a file back to its length before a write that overwrote nothing undoes the write. */
  lemma CutBack(content: Bytes, off: nat, data: Bytes)
    requires off >= |content|
    ensures |Spliced(content, off, data)| >= |content| && Spliced(content, off, data)[..|content|] == content
  {}

  /** The first n bytes of the buffer in the file, the others still in the buffer. */
  lemma KeptFacts(content: Bytes, off: nat, buf: Bytes, n: nat)
    requires n <= |buf| && off >= |content|
    ensures content <= Spliced(content, off, buf[..n])
    ensures off == |content| ==> Spliced(content, off, buf[..n]) == content + buf[..n]
    ensures content + buf[..n] + buf[n..] == content + buf && content + buf[..n] <= content + buf
  {
    WriteAppends(content, off, buf[..n]);
    assert buf[..n] + buf[n..] == buf;
    assert content + buf[..n] + buf[n..] == content + (buf[..n] + buf[n..]);
  }

  lemma OutcomeFacts(env: FlushEnv, len: nat)
    ensures var o := WriteOutcome(env, len);
            && o in {FullWrite, Exit, NothingWritten, ShortUndone, ShortKept}
            && (o == Exit <==> env.policy == Always && BytesWritten(len, env.answers) < len)
            && (o == FullWrite <==> BytesWritten(len, env.answers) == len)
            && (o == FullWrite ==> BytesKept(env, len) == len)
            && (env.policy == Always ==> o in {FullWrite, Exit})
            && (o in {NothingWritten, ShortUndone} ==> BytesKept(env, len) == 0)
            && (o == NothingWritten ==> BytesWritten(len, env.answers) == 0)
            && (o == ShortUndone ==> BytesWritten(len, env.answers) > 0)
            && (o == ShortKept ==> 0 < BytesKept(env, len) == BytesWritten(len, env.answers) < len)
    ensures len == 0 ==> BytesKept(env, len) == 0
  {
    hide BytesWritten;
  }

  /** MAIN RESULT (O_APPEND). On a file opened without O_APPEND, a short write that was undone leaves
      the offset behind the end. The next write then leaves a hole, and behind whole commands the
      file does not load any more, whatever the configuration of the loader. */
  method UndoneThenWritten(f: AofFile, first: FlushEnv, second: FlushEnv) returns (a: Outcome, b: Outcome)
    requires f.Tracks() && !f.append && !f.Postpones(first) && second.force
    requires WriteOutcome(first, |f.buf|) == ShortUndone && WriteOutcome(second, |f.buf|) == FullWrite
    modifies f
    ensures a == ShortUndone && b == if SyncFails(second) then Exit else FullWrite
    ensures f.content == Spliced(old(f.content), |old(f.content)| + BytesWritten(|old(f.buf)|, first.answers), old(f.buf))
    ensures forall cs, env | GoodLog(cs, env) && old(f.content) == EncodeAll(cs) :: Load(f.content, env).status == AofFailed
  {
    hide Spliced, GoodLog, EncodeAll, Load;
    a := f.Flush(first);
    assert f.content == old(f.content) by {
      assert old(f.buf)[..0] == [];
      SplicedNothing(old(f.content), |old(f.content)|);
    }
    assert f.buf == old(f.buf) && f.buf[..|f.buf|] == f.buf;
    b := f.Flush(second);
    forall cs, env | GoodLog(cs, env) && old(f.content) == EncodeAll(cs)
      ensures Load(f.content, env).status == AofFailed
    {
      HoleRefusesToLoad(cs, |old(f.content)| + BytesWritten(|old(f.buf)|, first.answers), old(f.buf), env);
    }
  }

  /** The input: a fresh file, one byte of the buffer written and removed again, then all of it. */
  method HoleInFreshFile(c: Argv) returns (f: AofFile)
    ensures forall env: Env :: Load(f.content, env).status == AofFailed
  {
    hide EncodeAll, Load, Spliced;
    f := new AofFile(false, [], EncodeCommand(c));
    var len := |f.buf|;
    HeaderIsLong(c);
    var first := FlushEnv(Never, true, 0, false, false, false, [Wrote(1)], true, true);
    var second := first.(answers := [Wrote(len)]);
    OneByte(len);
    var a, b := UndoneThenWritten(f, first, second);
    forall env: Env ensures Load(f.content, env).status == AofFailed {
      NothingIsGood(env);
    }
  }

  lemma HeaderIsLong(c: Argv)
    ensures |EncodeCommand(c)| >= 4
  {}

  lemma OneByte(len: nat)
    requires len > 1
    ensures BytesWritten(len, [Wrote(1)]) == 1 && BytesWritten(len, [Wrote(len)]) == len
  {
    assert [Wrote(1)][1..] == [];
    assert BytesWritten(len - 1, []) == 0;
  }

  lemma NothingIsGood(env: Env)
    ensures GoodLog([], env) && EncodeAll([]) == []
  {}
}
