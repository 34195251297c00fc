/**
  The interning table of ctbrowser/lib/Core/atom.cpp. The class is the table one thread
  sees; the machine after it is the table under any interleaving of threads, whose
  `intern` looks under a shared lock, lets go of it and looks again under an exclusive one.
 */
module Atoms {
  import opened Utf8

  const IDS: nat := 0x1_0000_0000

  datatype Table = Table(storage: seq<Bytes>, index: map<Bytes, nat>)

  /** Each stored string once, its index its id; id 0 is the empty string. */
  ghost predicate Agrees(t: Table) {
    && 1 <= |t.storage| <= IDS && t.storage[0] == []
    && (forall i :: 0 <= i < |t.storage| ==> t.storage[i] in t.index && t.index[t.storage[i]] == i)
    && (forall s :: s in t.index ==> t.index[s] < |t.storage| && t.storage[t.index[s]] == s)
  }

  function Empty(): Table { Table([[]], map[[] := 0]) }

  /** The stored copy at the end and its entry in the index; the id is 32 bits wide. */
  function Added(t: Table, text: Bytes): (r: Table) {
    Table(t.storage + [text], t.index[text := |t.storage| % IDS])
  }

  /** `text`. */
  function TextOf(t: Table, id: nat): (s: Bytes) { if id < |t.storage| then t.storage[id] else [] }

  lemma AddedAgrees(t: Table, text: Bytes)
    requires Agrees(t) && text !in t.index && |t.storage| < IDS
    ensures Agrees(Added(t, text)) && Added(t, text).index[text] == |t.storage|
  {
    var r := Added(t, text);
    forall i | 0 <= i < |r.storage| ensures r.storage[i] in r.index && r.index[r.storage[i]] == i {
      if i < |t.storage| {
        assert r.storage[i] == t.storage[i];
      }
    }
  }

  /** Before and after more strings: every id keeps its string. */
  predicate Extends(t: Table, r: Table) {
    t.storage <= r.storage && forall s :: s in t.index ==> s in r.index && r.index[s] == t.index[s]
  }

  class AtomTable {
    var storage: seq<Bytes>
    var index: map<Bytes, nat>

    ghost function View(): Table
      reads this
    {
      Table(storage, index)
    }

    constructor ()
      ensures View() == Empty() && Agrees(View())
    {
      storage := [[]];
      index := map[[] := 0];
    }

    /** `intern`, below 2^32 strings. */
    method Intern(text: Bytes) returns (id: nat)
      requires Agrees(View()) && |storage| < IDS
      modifies this
      ensures Agrees(View()) && Extends(old(View()), View())
      ensures text in index && id == index[text] && TextOf(View(), id) == text
      ensures View() == if text in old(index) then old(View()) else Added(old(View()), text)
    {
      if text in index {
        return index[text];
      }
      AddedAgrees(View(), text);
      id := |storage| % IDS;
      storage := storage + [text];
      index := index[text := id];
    }

    /** `text`. */
    method Text(id: nat) returns (s: Bytes)
      ensures s == TextOf(View(), id)
    {
      return if id < |storage| then storage[id] else [];
    }
  }

  // --- Many threads ---------------------------------------------------------------------------

  /** Where a thread is in `intern`. */
  datatype Call =
    | Free
    | Called(text: Bytes)    // about to look under the shared lock
    | Missed(text: Bytes)    // not found, between the two locks

  datatype Answer = Answer(text: Bytes, id: nat)

  datatype Shared = Shared(table: Table, calls: seq<Call>, answers: seq<Answer>)

  /** `Read` is the section under the shared lock, `Write` the one under the exclusive lock. */
  datatype Action = Call(thread: nat, text: Bytes) | Read(thread: nat) | Write(thread: nat)

  predicate CanDo(s: Shared, a: Action) {
    && a.thread < |s.calls|
    && match a
       case Call(i, _) => s.calls[i].Free?
       case Read(i) => s.calls[i].Called?
       case Write(i) => s.calls[i].Missed? && |s.table.storage| < IDS
  }

  function Answered(s: Shared, i: nat, text: Bytes, id: nat): Shared
    requires i < |s.calls|
  {
    s.(calls := s.calls[i := Free], answers := s.answers + [Answer(text, id)])
  }

  function Do(s: Shared, a: Action): (r: Shared)
    requires CanDo(s, a)
  {
    match a
    case Call(i, text) => s.(calls := s.calls[i := Called(text)])
    case Read(i) =>
      var text := s.calls[i].text;
      if text in s.table.index then Answered(s, i, text, s.table.index[text])
      else s.(calls := s.calls[i := Missed(text)])
    case Write(i) =>
      var text := s.calls[i].text;
      if text in s.table.index then Answered(s, i, text, s.table.index[text])
      else
        var r := s.(table := Added(s.table, text));
        Answered(r, i, text, |s.table.storage| % IDS)
  }

  predicate CanRun(s: Shared, run: seq<Action>)
    decreases |run|
  {
    run == [] || (CanDo(s, run[0]) && CanRun(Do(s, run[0]), run[1..]))
  }

  function Run(s: Shared, run: seq<Action>): (r: Shared)
    requires CanRun(s, run)
    decreases |run|
  {
    if run == [] then s else Run(Do(s, run[0]), run[1..])
  }

  function Fresh(threads: nat): Shared { Shared(Empty(), seq(threads, i => Free), []) }

  /** What was answered is still in the index. */
  ghost predicate AnswersHold(s: Shared) {
    forall k :: 0 <= k < |s.answers| ==>
      s.answers[k].text in s.table.index && s.table.index[s.answers[k].text] == s.answers[k].id
  }

  lemma StepKeeps(s: Shared, a: Action)
    requires CanDo(s, a) && Agrees(s.table) && AnswersHold(s)
    ensures Agrees(Do(s, a).table) && AnswersHold(Do(s, a)) && Extends(s.table, Do(s, a).table)
  {
    hide Agrees;
    if a.Write? && s.calls[a.thread].text !in s.table.index {
      AddedAgrees(s.table, s.calls[a.thread].text);
    }
    var r := Do(s, a);
    forall k | 0 <= k < |r.answers|
      ensures r.answers[k].text in r.table.index && r.table.index[r.answers[k].text] == r.answers[k].id
    {
      if k < |s.answers| {
        assert r.answers[k] == s.answers[k];
      }
    }
  }

  lemma {:induction false} RunKeeps(s: Shared, run: seq<Action>)
    requires CanRun(s, run) && Agrees(s.table) && AnswersHold(s)
    ensures Agrees(Run(s, run).table) && AnswersHold(Run(s, run)) && Extends(s.table, Run(s, run).table)
    decreases |run|
  {
    hide Agrees, AnswersHold, Do;
    if run != [] {
      StepKeeps(s, run[0]);
      RunKeeps(Do(s, run[0]), run[1..]);
    }
  }

  /**
    Under any interleaving, two calls get one id exactly when they asked for one string,
    and every id ever answered reads back as the string it was answered for.
   */
  lemma OneIdForEver(threads: nat, run: seq<Action>, j: nat, k: nat)
    requires CanRun(Fresh(threads), run)
    requires j < |Run(Fresh(threads), run).answers| && k < |Run(Fresh(threads), run).answers|
    ensures var s := Run(Fresh(threads), run);
            && (s.answers[j].text == s.answers[k].text <==> s.answers[j].id == s.answers[k].id)
            && TextOf(s.table, s.answers[j].id) == s.answers[j].text
  {
    RunKeeps(Fresh(threads), run);
  }
}
