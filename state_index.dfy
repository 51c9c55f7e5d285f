/**
 * The state index built by `fetchDistributorsAndStates` (script.js:38-47):
 * for each state code, the distributor codes seen for it, each once, in the
 * order the agent rows first mention them.
 *
 * `IndexAgents` is the fold exactly as the source runs it, one row at a
 * time. `CodesFor` and `FirstIndex` give an independent per-state reading
 * of the rows, and `IndexAgentsAt` proves the fold agrees with it.
 */
module StateIndex {
  import opened Records
  import opened Ordering

  /** `distributorsByState`: state code to the distributor codes seen for it. */
  type Index = map<string, seq<string>>

  /** The list stored for `state`, or the empty list when there is none. */
  function ListOf(idx: Index, state: string): seq<string> {
    if state in idx then idx[state] else []
  }

  /**
   * What the index looks like after any fold from an empty one: no blank
   * state, and every list non-empty, without blank codes and without
   * duplicates.
   */
  ghost predicate WellFormed(idx: Index) {
    && "" !in idx
    && forall state :: state in idx ==>
         idx[state] != [] && "" !in idx[state] && NoDuplicates(idx[state])
  }

  /**
   * One row of the fold: a row with a blank state or code is skipped;
   * otherwise the state gets an empty list on first sight and the code is
   * appended unless the list already holds it.
   */
  function AddAgent(idx: Index, agent: AgentRecord): (added: Index)
    ensures idx.Keys <= added.Keys
    ensures agent.sigUF == "" || agent.sigAgente == "" ==> added == idx
    ensures agent.sigUF != "" && agent.sigAgente != "" ==>
              agent.sigUF in added && agent.sigAgente in added[agent.sigUF]
  {
    var state := agent.sigUF;
    var code := agent.sigAgente;
    if state == "" || code == "" then idx
    else
      var created := if state in idx then idx else idx[state := []];
      if code in created[state] then created
      else created[state := created[state] + [code]]
  }

  /** The rows folded into `idx` in the order they arrive. */
  function IndexAgents(idx: Index, agents: seq<AgentRecord>): (indexed: Index)
    ensures idx.Keys <= indexed.Keys
    decreases |agents|
  {
    if agents == [] then idx
    else
      AddAgent(IndexAgents(idx, agents[..|agents| - 1]), agents[|agents| - 1])
  }

  /** The codes of the rows for `state` that have both fields, in row order (repeats kept). */
  function CodesFor(agents: seq<AgentRecord>, state: string): (codes: seq<string>)
    ensures "" !in codes
    ensures state == "" ==> codes == []
    ensures |codes| <= |agents|
    decreases |agents|
  {
    if agents == [] then []
    else
      var last := agents[|agents| - 1];
      CodesFor(agents[..|agents| - 1], state)
        + (if state != "" && last.sigUF == state && last.sigAgente != "" then [last.sigAgente] else [])
  }

  /** Where `x` first occurs in `s`; `|s|` when it does not occur. */
  function FirstIndex(s: seq<string>, x: string): (i: nat)
    ensures i <= |s|
    ensures i < |s| <==> x in s
    ensures i < |s| ==> s[i] == x && x !in s[..i]
  {
    if s == [] then 0
    else if s[0] == x then 0
    else
      var i := 1 + FirstIndex(s[1..], x);
      assert s[..i] == [s[0]] + s[1..][..i - 1];
      i
  }

  /** Appending to a sequence does not move the first occurrence of what it already holds. */
  lemma {:induction false} FirstIndexAppend(s: seq<string>, c: string, x: string)
    requires x in s || x == c
    ensures FirstIndex(s + [c], x) == if x in s then FirstIndex(s, x) else |s|
  {
    if s != [] && s[0] != x {
      assert (s + [c])[1..] == s[1..] + [c];
      FirstIndexAppend(s[1..], c, x);
    }
  }

  /** One row, read for one state: only a non-blank row for that state, with a new code, changes its list. */
  lemma AddAgentAt(m: Index, agent: AgentRecord, state: string)
    ensures var hit := state != "" && agent.sigUF == state && agent.sigAgente != "";
      && (state in AddAgent(m, agent) <==> state in m || hit)
      && ListOf(AddAgent(m, agent), state) ==
           if hit && agent.sigAgente !in ListOf(m, state) then ListOf(m, state) + [agent.sigAgente]
           else ListOf(m, state)
  {
  }

  /**
   * `after` is `before` followed by the codes of `codes` that `before`
   * lacks, each once, in the order of their first occurrence in `codes`.
   */
  ghost predicate ExtendsInOrder(before: seq<string>, after: seq<string>, codes: seq<string>) {
    && |before| <= |after| && after[..|before|] == before
    && NoDuplicates(after)
    && (forall c :: c in after <==> c in before || c in codes)
    && (forall i, j :: |before| <= i < j < |after| ==> FirstIndex(codes, after[i]) < FirstIndex(codes, after[j]))
  }

  /**
   * The fold, read state by state: writing `before` and `after` for the
   * state's list in the index before and after the fold, and `codes` for
   * the codes of that state's non-blank rows, the state is a key afterwards
   * exactly when it was one or has such a row, and `after` is `before`
   * extended by the new codes in the order of their first row.
   */
  lemma {:induction false} IndexAgentsAt(idx: Index, agents: seq<AgentRecord>, state: string)
    requires NoDuplicates(ListOf(idx, state))
    ensures state in IndexAgents(idx, agents) <==> state in idx || CodesFor(agents, state) != []
    ensures ExtendsInOrder(ListOf(idx, state), ListOf(IndexAgents(idx, agents), state), CodesFor(agents, state))
    decreases |agents|
  {
    var before := ListOf(idx, state);
    if agents == [] {
      assert before[..|before|] == before;
    } else {
      var prefix := agents[..|agents| - 1];
      var agent := agents[|agents| - 1];
      IndexAgentsAt(idx, prefix, state);
      AddAgentAt(IndexAgents(idx, prefix), agent, state);
      var mid := ListOf(IndexAgents(idx, prefix), state);
      var codes0 := CodesFor(prefix, state);
      if state != "" && agent.sigUF == state && agent.sigAgente != "" {
        var c := agent.sigAgente;
        assert CodesFor(agents, state) == codes0 + [c];
        if c !in mid {
          AppendNewCode(before, mid, codes0, c);
        } else {
          RepeatedCode(before, mid, codes0, c);
        }
      } else {
        assert CodesFor(agents, state) == codes0;
      }
    }
  }

  /** A row whose code the list already holds leaves the order intact. */
  lemma RepeatedCode(before: seq<string>, mid: seq<string>, codes0: seq<string>, c: string)
    requires ExtendsInOrder(before, mid, codes0)
    requires c in mid
    ensures ExtendsInOrder(before, mid, codes0 + [c])
  {
    var codes := codes0 + [c];
    forall i | |before| <= i < |mid|
      ensures mid[i] in codes0 && FirstIndex(codes, mid[i]) == FirstIndex(codes0, mid[i])
    {
      assert mid[i] !in before;
      FirstIndexAppend(codes0, c, mid[i]);
    }
  }

  /** A row with a code new to the list appends it after every code already there. */
  lemma AppendNewCode(before: seq<string>, mid: seq<string>, codes0: seq<string>, c: string)
    requires ExtendsInOrder(before, mid, codes0)
    requires c !in mid
    ensures ExtendsInOrder(before, mid + [c], codes0 + [c])
  {
    var after, codes := mid + [c], codes0 + [c];
    assert after[..|before|] == mid[..|before|];
    FirstIndexAppend(codes0, c, c);
    forall i | |before| <= i < |mid|
      ensures FirstIndex(codes, mid[i]) == FirstIndex(codes0, mid[i]) < |codes0|
    {
      assert mid[i] !in before;
      FirstIndexAppend(codes0, c, mid[i]);
    }
    forall i, j | |before| <= i < j < |after|
      ensures FirstIndex(codes, after[i]) < FirstIndex(codes, after[j])
    {
      assert after[i] == mid[i];
      if j < |mid| {
        assert after[j] == mid[j];
      }
    }
  }

  /** Folding rows into a well-formed index keeps it well-formed: in particular no list gains a duplicate. */
  lemma {:induction false} IndexAgentsWellFormed(idx: Index, agents: seq<AgentRecord>)
    requires WellFormed(idx)
    ensures WellFormed(IndexAgents(idx, agents))
  {
    var r := IndexAgents(idx, agents);
    IndexAgentsAt(idx, agents, "");
    forall state | state in r
      ensures r[state] != [] && "" !in r[state] && NoDuplicates(r[state])
    {
      ListWellFormed(idx, agents, state);
    }
  }

  /** `IndexAgentsWellFormed` for one state that is a key after the fold. */
  lemma {:induction false} ListWellFormed(idx: Index, agents: seq<AgentRecord>, state: string)
    requires WellFormed(idx)
    requires state in IndexAgents(idx, agents)
    ensures var list := IndexAgents(idx, agents)[state];
      list != [] && "" !in list && NoDuplicates(list)
  {
    var before := ListOf(idx, state);
    var after := ListOf(IndexAgents(idx, agents), state);
    var codes := CodesFor(agents, state);
    IndexAgentsAt(idx, agents, state);
    assert ExtendsInOrder(before, after, codes);
    assert forall c :: c in after ==> c in before || c in codes;
    if state !in idx {
      assert codes[0] in codes;
    } else {
      assert before[0] in before;
    }
  }

  /** Repeated rows for a state collapse to one entry; each state keeps its own list. */
  lemma DuplicateRowsCollapse()
    ensures var agents := [AgentRecord("SP", "X"), AgentRecord("SP", "X"), AgentRecord("RJ", "Y")];
      IndexAgents(map[], agents) == map["SP" := ["X"], "RJ" := ["Y"]]
  {
    var agents := [AgentRecord("SP", "X"), AgentRecord("SP", "X"), AgentRecord("RJ", "Y")];
    assert agents[..2] == [agents[0], agents[1]] && agents[..2][..1] == [agents[0]];
    assert [agents[0]][..0] == [];
    assert |"SP"| == 2 && |"X"| == 1 && |"RJ"| == 2 && |"Y"| == 1;
    assert [] + ["X"] == ["X"] && [] + ["Y"] == ["Y"];
    var one := AddAgent(map[], agents[0]);
    assert one == map["SP" := ["X"]];
    assert "X" in one["SP"];
    assert IndexAgents(map[], [agents[0]]) == one;
    assert IndexAgents(map[], agents[..2]) == AddAgent(one, agents[1]) == one;
    assert "RJ" != "SP" by { assert "RJ"[0] != "SP"[0]; }
    assert AddAgent(one, agents[2]) == map["SP" := ["X"], "RJ" := ["Y"]];
  }
}
