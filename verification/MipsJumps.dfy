// MIPS: the spare long-range jump slots at the end of a machine code area.
module MipsJumps {
  import opened Words

  const NOP: u32 := 0
  const SPAREJUMP: nat := 4

  // Slot k, counted from the top of an area of n words; the second word is the delay slot.
  function SlotPos(n: nat, k: nat): (p: nat)
    requires 2 * SPAREJUMP <= n && k < SPAREJUMP
    ensures p + 2 <= n
  {
    n - 2 * (k + 1)
  }

  // The jumps issued so far, from the top.
  predicate Holds(mem: seq<u32>, issued: seq<u32>) {
    && 2 * SPAREJUMP <= |mem| && |issued| <= SPAREJUMP
    && (forall k :: 0 <= k < |issued| ==> mem[SlotPos(|mem|, k)] == issued[k] != NOP)
    && (forall k :: |issued| <= k < SPAREJUMP ==> mem[SlotPos(|mem|, k)] == NOP)
    && (forall k :: 0 <= k < SPAREJUMP ==> mem[SlotPos(|mem|, k) + 1] == NOP)
    && forall j, k :: 0 <= j < k < |issued| ==> issued[j] != issued[k]
  }

  function IndexOf(issued: seq<u32>, t: u32): (k: nat)
    requires t in issued
    ensures k < |issued| && issued[k] == t && t !in issued[..k]
  {
    if issued[0] == t then 0
    else
      assert issued == [issued[0]] + issued[1..];
      IndexOf(issued[1..], t) + 1
  }

  // One request: the slot it gets, and the jumps issued afterwards.
  function UseSlot(issued: seq<u32>, t: u32): (Option<nat>, seq<u32>) {
    if t in issued then (Some(IndexOf(issued, t)), issued)
    else if |issued| < SPAREJUMP then (Some(|issued|), issued + [t])
    else (None, issued)
  }

  // Setup for the first trace in an area: clear the slots and reserve them.
  method SparejumpSetup(mem: array<u32>, mctop: nat) returns (mctop': nat)
    requires 2 * SPAREJUMP <= mem.Length && mctop <= mem.Length
    modifies mem
    ensures mctop == mem.Length ==>
      mctop' == mem.Length - 8 && Holds(mem[..], []) && mem[..mctop'] == old(mem[..mctop'])
    ensures mctop != mem.Length ==> mctop' == mctop && mem[..] == old(mem[..])
  {
    mctop' := mctop;
    if mctop == mem.Length {
      mctop' := mctop - 2 * SPAREJUMP;
      forall i | mctop' <= i < mem.Length { mem[i] := 0; }
    }
  }

  method SparejumpUse(mem: array<u32>, tjump: u32, ghost issued: seq<u32>) returns (mxp: Option<nat>)
    requires Holds(mem[..], issued) && tjump != NOP
    modifies mem
    ensures var (slot, after) := UseSlot(issued, tjump);
      && Holds(mem[..], after)
      && mxp == (if slot.Some? then Some(SlotPos(mem.Length, slot.value)) else None)
      && (mxp.Some? ==> mem[mxp.value] == tjump && mem[..] == old(mem[..])[mxp.value := tjump])
      && (mxp.None? ==> mem[..] == old(mem[..]))
  {
    var p := mem.Length;
    for slot := 0 to SPAREJUMP
      invariant p == mem.Length - 2 * slot && mem[..] == old(mem[..])
      invariant slot <= |issued| && tjump !in issued[..slot]
    {
      p := p - 2;
      assert p == SlotPos(mem.Length, slot);
      if mem[p] == tjump {
        return Some(p);
      } else if mem[p] == NOP {
        assert issued[..slot] == issued;
        mem[p] := tjump;
        return Some(p);
      }
    }
    assert issued[..SPAREJUMP] == issued;
    return None;
  }

  // -- Whole runs -------------------------------------------------------------------------

  // The jumps issued after a sequence of requests, and the answers.
  function Issued(issued: seq<u32>, ts: seq<u32>): seq<u32>
    decreases |ts|
  {
    if ts == [] then issued else Issued(UseSlot(issued, ts[0]).1, ts[1..])
  }

  function Answers(issued: seq<u32>, ts: seq<u32>): (r: seq<Option<nat>>)
    ensures |r| == |ts|
    decreases |ts|
  {
    if ts == [] then [] else [UseSlot(issued, ts[0]).0] + Answers(UseSlot(issued, ts[0]).1, ts[1..])
  }

  predicate Distinct(s: seq<u32>) { forall j, k :: 0 <= j < k < |s| ==> s[j] != s[k] }

  // Over any run the slots fill from the top without duplicates and an issued slot never changes.
  lemma {:induction false} IssuedGrows(issued: seq<u32>, ts: seq<u32>)
    requires Distinct(issued) && |issued| <= SPAREJUMP
    ensures issued <= Issued(issued, ts) && Distinct(Issued(issued, ts)) && |Issued(issued, ts)| <= SPAREJUMP
    decreases |ts|
  {
    if ts != [] { IssuedGrows(UseSlot(issued, ts[0]).1, ts[1..]); }
  }

  // Every answer is a slot that still holds the requested jump after the whole run; a request is
  // refused only when all slots hold other jumps, and then for good.
  lemma {:induction false} AnswersExact(issued: seq<u32>, ts: seq<u32>, i: nat)
    requires Distinct(issued) && |issued| <= SPAREJUMP && i < |ts|
    ensures var (ans, fin) := (Answers(issued, ts)[i], Issued(issued, ts));
      && (ans.Some? ==> ans.value < |fin| && fin[ans.value] == ts[i])
      && (ans.None? <==> |fin| == SPAREJUMP && ts[i] !in fin)
    decreases |ts|
  {
    var next := UseSlot(issued, ts[0]).1;
    IssuedGrows(next, ts[1..]);
    if i > 0 { AnswersExact(next, ts[1..], i - 1); }
  }

  // Equal requests get equal answers, different ones never share a slot.
  lemma SlotsAreJumps(issued: seq<u32>, ts: seq<u32>, i: nat, j: nat)
    requires Distinct(issued) && |issued| <= SPAREJUMP && i < |ts| && j < |ts|
    requires Answers(issued, ts)[i].Some?
    ensures Answers(issued, ts)[i] == Answers(issued, ts)[j] <==> ts[i] == ts[j]
  {
    AnswersExact(issued, ts, i);
    AnswersExact(issued, ts, j);
    IssuedGrows(issued, ts);
  }
}
