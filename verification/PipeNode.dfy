/** The pipe protocol running on the real block chain: every segment that moves data does so
    through the copying loops of ramfs_pipe_read and ramfs_pipe_write. */
module PipeNodes {
  import opened Common
  import opened PipeProtocol
  import opened PipeBuffers
  import S = Semaphores

  /** One segment of agent i; the block chain keeps holding what the protocol says, and what
      the copying loop moved is the answer of the call. */
  method StepNode(buffer: PipeBuffer, s: Sys, i: nat) returns (t: Sys, moved: seq<Byte>)
    requires Inv(s) && CanStep(s, i) && buffer.Valid() && buffer.Contents() == s.content
    modifies buffer
    ensures Step(s, i) == Some(t) && Inv(t) && |t.agents| == |s.agents|
    ensures buffer.Valid() && buffer.Contents() == t.content
    ensures s.agents[i].pc == Critical ==> moved == t.agents[i].moved != []
  {
    hide Inv, Step, PipeBuffer.Contents, PipeBuffer.Valid;
    StepKeeps(s, i);
    StepRoles(s, i);
    moved := [];
    t := Step(s, i).value;
    ContentAfter(s, i);
    if s.agents[i].pc == Critical {
      match s.agents[i].role
      case Reader(size) =>
        moved := buffer.Read(PipeProtocol.Min(size, 1 + s.bytes.count));
      case Writer(data) =>
        moved := data[..PipeProtocol.Min(|data|, 1 + s.space.count)];
        buffer.Write(moved);
    }
  }

  /** What a segment does to the content, and what its call has moved. */
  lemma ContentAfter(s: Sys, i: nat)
    requires Inv(s) && CanStep(s, i) && Step(s, i).Some?
    ensures var a, t := s.agents[i], Step(s, i).value;
      && |t.agents| == |s.agents|
      && if a.pc != Critical then t.content == s.content
         else
           && t.agents[i].moved != []
           && (a.role.Reader? ==>
                 var n := PipeProtocol.Min(a.role.size, 1 + s.bytes.count);
                 n <= |s.content| && t.agents[i].moved == s.content[..n] && t.content == s.content[n..])
           && (a.role.Writer? ==>
                 && t.agents[i].moved == a.role.data[..PipeProtocol.Min(|a.role.data|, 1 + s.space.count)]
                 && t.content == s.content + t.agents[i].moved)
  {
    hide Queues, Records, WakeAll, S.Acquired, S.Released, S.Woken, Held, Accounts;
    StepRoles(s, i);
    forall agents, pids ensures SameAnswers(agents, WakeAll(agents, pids)) {
      WakeAllSame(agents, pids);
    }
  }

  /** Any schedule from a fresh pipe: the block chain ends up holding exactly what was written
      and not yet read. */
  method PlayNode(buffer: PipeBuffer, roles: seq<Role>, schedule: seq<nat>) returns (t: Sys)
    requires Playable(Begin(roles), schedule) && buffer.Valid() && buffer.Contents() == []
    modifies buffer
    ensures Play(Begin(roles), schedule) == Some(t)
    ensures buffer.Valid() && t.written == t.read + buffer.Contents()
  {
    hide Inv, Step, PipeBuffer.Contents, PipeBuffer.Valid;
    BeginInv(roles);
    t := Begin(roles);
    var k: nat := 0;
    while k < |schedule|
      invariant k <= |schedule| && Inv(t) && buffer.Valid() && buffer.Contents() == t.content
      invariant Playable(t, schedule[k..]) && Play(t, schedule[k..]) == Play(Begin(roles), schedule)
    {
      assert schedule[k..][0] == schedule[k] && schedule[k..][1..] == schedule[k + 1..];
      var moved;
      t, moved := StepNode(buffer, t, schedule[k]);
      k := k + 1;
    }
    Balanced(t);
  }

  lemma Balanced(s: Sys)
    requires Inv(s)
    ensures s.written == s.read + s.content
  {
  }
}
