/** The kernel's walk of a rule table for one packet, on the table as the kernel
    sees it: entries by index, with every byte offset already looked up. */
module IptTraversal {
  import opened Common
  import IptTable

  /** Whatever rules look at and extension targets change: headers and payload,
      the mark, the connection the packet belongs to. */
  type Content = seq<int>

  /** A packet on its way: what it carries, which rules match that, and what each
      extension target decides and leaves behind (`None` is XT_CONTINUE). */
  datatype Packet = Packet(
    content: Content, matches: (IptTable.IpMatch, Content) -> bool, fire: (IptTable.Target, Content) -> (Option<int>, Content))

  ghost predicate IsPacket(p: Packet) {
    forall c :: p.matches(IptTable.ANY, c)
  }

  /** `Jump` saves the jumping entry if `push`; `Bad` jumps into the middle of
      an entry. */
  datatype Op = Jump(to: nat, push: bool) | Return | Stop(v: int) | Extension(target: IptTable.Target) | Bad

  datatype Insn = Insn(ip: IptTable.IpMatch, op: Op)

  datatype Chain = Chain(first: nat, policy: nat)

  datatype Program = Program(code: seq<Insn>, chains: map<nat, Chain>)

  predicate Final(i: Insn) {
    i.ip == IptTable.ANY && i.op.Stop?
  }

  /** The entry under inspection and the saved jumps, all as entry indices, and
      what the packet carries by now. */
  datatype State = State(pc: nat, stack: seq<nat>, content: Content)

  datatype Outcome = Verdict(v: int, content: Content) | Stuck | OutOfFuel

  datatype StepResult = Next(s: State) | Done(o: Outcome)

  /** One step. Entries in `dead` never match. A RETURN with nothing saved goes
      to the policy of the hook. */
  function Step(g: Program, hook: nat, dead: seq<bool>, p: Packet, s: State): StepResult
    requires hook in g.chains && |dead| == |g.code|
  {
    if s.pc >= |g.code| then Done(Stuck) else
    var insn := g.code[s.pc];
    if dead[s.pc] || !p.matches(insn.ip, s.content) then Next(s.(pc := s.pc + 1)) else
    match insn.op
    case Jump(to, push) => Next(State(to, if push then s.stack + [s.pc] else s.stack, s.content))
    case Return =>
      if s.stack == [] then Next(s.(pc := g.chains[hook].policy))
      else Next(State(s.stack[|s.stack| - 1] + 1, s.stack[..|s.stack| - 1], s.content))
    case Stop(v) => Done(Verdict(v, s.content))
    case Extension(target) =>
      var (verdict, content) := p.fire(target, s.content);
      (match verdict
       case Some(v) => Done(Verdict(v, content))
       case None => Next(State(s.pc + 1, s.stack, content)))
    case Bad => Done(Stuck)
  }

  function Run(g: Program, hook: nat, dead: seq<bool>, p: Packet, s: State, fuel: nat): Outcome
    requires hook in g.chains && |dead| == |g.code|
    decreases fuel
  {
    if fuel == 0 then OutOfFuel else
    match Step(g, hook, dead, p, s)
    case Done(o) => o
    case Next(s') => Run(g, hook, dead, p, s', fuel - 1)
  }

  lemma RunStep(g: Program, hook: nat, dead: seq<bool>, p: Packet, s: State, fuel: nat)
    requires hook in g.chains && |dead| == |g.code| && fuel > 0
    ensures Run(g, hook, dead, p, s, fuel) ==
      match Step(g, hook, dead, p, s)
      case Done(o) => o
      case Next(s') => Run(g, hook, dead, p, s', fuel - 1)
  {
  }

  function Start(g: Program, hook: nat, p: Packet): State
    requires hook in g.chains
  {
    State(g.chains[hook].first, [], p.content)
  }

  function NoneDead(n: nat): (r: seq<bool>)
    ensures |r| == n && forall i :: 0 <= i < n ==> !r[i]
  {
    seq(n, _ => false)
  }

  lemma {:induction false} MoreFuel(g: Program, hook: nat, dead: seq<bool>, p: Packet, s: State, f: nat, f': nat)
    requires hook in g.chains && |dead| == |g.code| && f <= f'
    requires Run(g, hook, dead, p, s, f) != OutOfFuel
    ensures Run(g, hook, dead, p, s, f') == Run(g, hook, dead, p, s, f)
    decreases f
  {
    match Step(g, hook, dead, p, s)
    case Done(o) =>
    case Next(s') => MoreFuel(g, hook, dead, p, s', f - 1, f' - 1);
  }

  /** A walk under way knows the packet's content from its state only. */
  lemma {:induction false} RunOwnContent(g: Program, hook: nat, dead: seq<bool>, p: Packet, c: Content, s: State, f: nat)
    requires hook in g.chains && |dead| == |g.code|
    ensures Run(g, hook, dead, p.(content := c), s, f) == Run(g, hook, dead, p, s, f)
    decreases f
  {
    if f > 0 {
      match Step(g, hook, dead, p, s)
      case Done(o) =>
      case Next(s') => RunOwnContent(g, hook, dead, p, c, s', f - 1);
    }
  }

  // ----- one instruction more: lockstep simulation -----

  /** The new index of old instruction `i` after one insertion at `k`. */
  function Moved(k: nat, i: nat): nat {
    if i < k then i else i + 1
  }

  function MovedInsn(k: nat, i: Insn): Insn {
    if i.op.Jump? then i.(op := Jump(Moved(k, i.op.to), i.op.push)) else i
  }

  ghost predicate MovedAt(g: Program, g': Program, k: nat, i: nat)
    requires i < |g.code| && |g'.code| == |g.code| + 1
  {
    g'.code[Moved(k, i)] == MovedInsn(k, g.code[i])
  }

  /** `g'` is `g` with one instruction put at `k`, the first of chain `hook`. */
  ghost predicate Extended(g: Program, g': Program, hook: nat, k: nat) {
    && |g'.code| == |g.code| + 1 && k <= |g.code|
    && (k > 0 ==> Final(g.code[k - 1]))
    && (forall i {:trigger MovedAt(g, g', k, i)} :: 0 <= i < |g.code| ==> MovedAt(g, g', k, i))
    && g'.chains.Keys == g.chains.Keys && hook in g.chains
    && (forall h :: h in g.chains ==> g'.chains[h].policy == Moved(k, g.chains[h].policy))
    && (forall h :: h in g.chains ==> g'.chains[h].first == if h == hook then k else Moved(k, g.chains[h].first))
    && g.chains[hook].first == k
  }

  /** The saved jumps are in the program and none of them is final. */
  ghost predicate StackOk(g: Program, stack: seq<nat>) {
    forall i :: 0 <= i < |stack| ==> stack[i] < |g.code| && !Final(g.code[stack[i]])
  }

  function MovedAll(k: nat, stack: seq<nat>): (r: seq<nat>)
    ensures |r| == |stack| && forall i :: 0 <= i < |stack| ==> r[i] == Moved(k, stack[i])
  {
    seq(|stack|, i requires 0 <= i < |stack| => Moved(k, stack[i]))
  }

  function MovedState(k: nat, s: State): State {
    State(Moved(k, s.pc), MovedAll(k, s.stack), s.content)
  }

  lemma ExtendedPush(g: Program, g': Program, hook: nat, k: nat, s: State)
    requires Extended(g, g', hook, k) && StackOk(g, s.stack)
    requires s.pc < |g.code| && g.code[s.pc].op.Jump?
    ensures StackOk(g, s.stack + [s.pc])
    ensures MovedAll(k, s.stack + [s.pc]) == MovedAll(k, s.stack) + [Moved(k, s.pc)]
  {
  }

  /** Returning to a saved jump resumes after it, where nothing was inserted. */
  lemma ExtendedPop(g: Program, g': Program, hook: nat, k: nat, s: State)
    requires Extended(g, g', hook, k) && StackOk(g, s.stack) && s.stack != []
    ensures var n, m := |s.stack| - 1, MovedAll(k, s.stack);
      && StackOk(g, s.stack[..n])
      && m[n] + 1 == Moved(k, s.stack[n] + 1) && m[..n] == MovedAll(k, s.stack[..n])
  {
    var n := |s.stack| - 1;
    assert !Final(g.code[s.stack[n]]);
  }

  lemma ExtendedStep(g: Program, g': Program, hook: nat, k: nat, h: nat, p: Packet, s: State)
    requires Extended(g, g', hook, k) && IsPacket(p) && h in g.chains && StackOk(g, s.stack)
    ensures match Step(g, h, NoneDead(|g.code|), p, s)
      case Done(o) => Step(g', h, NoneDead(|g'.code|), p, MovedState(k, s)) == Done(o)
      case Next(s1) => Step(g', h, NoneDead(|g'.code|), p, MovedState(k, s)) == Next(MovedState(k, s1)) && StackOk(g, s1.stack)
  {
    if s.pc < |g.code| {
      var i := g.code[s.pc];
      assert MovedAt(g, g', k, s.pc);
      assert !Final(i) ==> Moved(k, s.pc + 1) == Moved(k, s.pc) + 1;
      if i.op.Jump? {
        ExtendedPush(g, g', hook, k, s);
      } else if i.op.Return? && s.stack != [] {
        ExtendedPop(g, g', hook, k, s);
      }
    }
  }

  /** From matching states the two programs run in lockstep, whatever the fuel. */
  lemma {:induction false} ExtendedRun(g: Program, g': Program, hook: nat, k: nat, h: nat, p: Packet, s: State, fuel: nat)
    requires Extended(g, g', hook, k) && IsPacket(p) && h in g.chains && StackOk(g, s.stack)
    ensures Run(g', h, NoneDead(|g'.code|), p, MovedState(k, s), fuel) == Run(g, h, NoneDead(|g.code|), p, s, fuel)
    decreases fuel
  {
    if fuel > 0 {
      ExtendedStep(g, g', hook, k, h, p, s);
      match Step(g, h, NoneDead(|g.code|), p, s)
      case Done(o) =>
      case Next(s') => ExtendedRun(g, g', hook, k, h, p, s', fuel - 1);
    }
  }

  // ----- some instructions fewer: stuttering simulation -----

  /** How many of the first `i` instructions are not dead. */
  function Rank(dead: seq<bool>, i: nat): nat
    requires i <= |dead|
  {
    if i == 0 then 0 else Rank(dead, i - 1) + if dead[i - 1] then 0 else 1
  }

  /** A surviving instruction, its jump re-aimed; whether it saves itself may
      differ only if it jumps to a final instruction. */
  ghost predicate SameInsn(g: Program, dead: seq<bool>, i: Insn, i': Insn)
    requires |dead| == |g.code|
  {
    if i.op.Jump? then
      && i'.op.Jump? && i'.ip == i.ip
      && i.op.to < |g.code| && i'.op.to == Rank(dead, i.op.to)
      && (i'.op.push == i.op.push || Final(g.code[i.op.to]))
    else i' == i
  }

  ghost predicate KeptAt(g: Program, g': Program, dead: seq<bool>, i: nat)
    requires i < |dead| == |g.code|
  {
    if dead[i] then !g.code[i].op.Jump? && !Final(g.code[i])
    else Rank(dead, i) < |g'.code| && SameInsn(g, dead, g.code[i], g'.code[Rank(dead, i)])
  }

  /** `g'` is `g` without its dead instructions, none of which jumps. */
  ghost predicate Filtered(g: Program, g': Program, dead: seq<bool>) {
    && |dead| == |g.code| && |g'.code| == Rank(dead, |dead|)
    && (forall i {:trigger KeptAt(g, g', dead, i)} :: 0 <= i < |dead| ==> KeptAt(g, g', dead, i))
    && g'.chains.Keys == g.chains.Keys
    && (forall h :: h in g.chains ==>
          && g.chains[h].first <= |dead| && g'.chains[h].first == Rank(dead, g.chains[h].first)
          && g.chains[h].policy < |dead| && g'.chains[h].policy == Rank(dead, g.chains[h].policy))
  }

  function Ranks(dead: seq<bool>, stack: seq<nat>): (r: seq<nat>)
    requires forall i :: 0 <= i < |stack| ==> stack[i] < |dead|
    ensures |r| == |stack| && forall i :: 0 <= i < |stack| ==> r[i] == Rank(dead, stack[i])
  {
    seq(|stack|, i requires 0 <= i < |stack| => Rank(dead, stack[i]))
  }

  ghost predicate LiveStack(dead: seq<bool>, stack: seq<nat>) {
    forall i :: 0 <= i < |stack| ==> stack[i] < |dead| && !dead[stack[i]]
  }

  /** Old and new walk stand at the same survivor with the same saved jumps; at
      a final instruction the saved jumps no longer matter. */
  ghost predicate Simulates(g: Program, dead: seq<bool>, s: State, s': State)
    requires |dead| == |g.code|
  {
    && LiveStack(dead, s.stack)
    && s.pc <= |dead|
    && s'.pc == Rank(dead, s.pc)
    && s'.content == s.content
    && (s'.stack == Ranks(dead, s.stack) || (s.pc < |dead| && Final(g.code[s.pc])))
  }

  lemma FilteredPush(g: Program, g': Program, dead: seq<bool>, s: State)
    requires Filtered(g, g', dead) && LiveStack(dead, s.stack)
    requires s.pc < |g.code| && !dead[s.pc]
    ensures LiveStack(dead, s.stack + [s.pc])
    ensures Ranks(dead, s.stack + [s.pc]) == Ranks(dead, s.stack) + [Rank(dead, s.pc)]
  {
  }

  /** Returning to a saved jump resumes at the survivor after it. */
  lemma FilteredPop(g: Program, g': Program, dead: seq<bool>, s: State)
    requires Filtered(g, g', dead) && LiveStack(dead, s.stack) && s.stack != []
    ensures var n, m := |s.stack| - 1, Ranks(dead, s.stack);
      && LiveStack(dead, s.stack[..n])
      && m[n] + 1 == Rank(dead, s.stack[n] + 1) && m[..n] == Ranks(dead, s.stack[..n])
  {
    var n := |s.stack| - 1;
    assert Rank(dead, s.stack[n] + 1) == Rank(dead, s.stack[n]) + 1;
  }

  /** One old step: a dead entry is skipped, any other step is matched. */
  lemma FilteredStep(g: Program, g': Program, dead: seq<bool>, h: nat, p: Packet, s: State, s': State)
    requires Filtered(g, g', dead) && IsPacket(p) && h in g.chains && Simulates(g, dead, s, s')
    ensures var r' := Step(g', h, NoneDead(|g'.code|), p, s');
      match Step(g, h, dead, p, s)
      case Done(o) => r' == Done(o)
      case Next(s1) =>
        if s.pc < |dead| && dead[s.pc] then s1.pc == s.pc + 1 && Simulates(g, dead, s1, s')
        else r'.Next? && Simulates(g, dead, s1, r'.s)
  {
    if s.pc < |dead| {
      var i := g.code[s.pc];
      assert Rank(dead, s.pc + 1) == Rank(dead, s.pc) + if dead[s.pc] then 0 else 1;
      assert KeptAt(g, g', dead, s.pc);
      if !dead[s.pc] {
        if i.op.Jump? {
          FilteredPush(g, g', dead, s);
        } else if i.op.Return? {
          if s.stack == [] {
            assert Ranks(dead, s.stack) == [];
          } else {
            FilteredPop(g, g', dead, s);
          }
        }
      }
    }
  }

  lemma {:induction false} FilteredForward(g: Program, g': Program, dead: seq<bool>, h: nat, p: Packet, s: State, s': State, f: nat)
    requires Filtered(g, g', dead) && IsPacket(p) && h in g.chains && Simulates(g, dead, s, s')
    requires Run(g, h, dead, p, s, f) != OutOfFuel
    ensures Run(g', h, NoneDead(|g'.code|), p, s', f) == Run(g, h, dead, p, s, f)
    decreases f
  {
    FilteredStep(g, g', dead, h, p, s, s');
    var none := NoneDead(|g'.code|);
    assert |dead| == |g.code| && h in g'.chains && f > 0;
    hide Filtered, Simulates, Step;
    match Step(g, h, dead, p, s)
    case Done(o) =>
    case Next(s1) =>
      if s.pc < |dead| && dead[s.pc] {
        FilteredForward(g, g', dead, h, p, s1, s', f - 1);
        MoreFuel(g', h, none, p, s', f - 1, f);
      } else {
        FilteredForward(g, g', dead, h, p, s1, Step(g', h, none, p, s').s, f - 1);
      }
  }

  lemma {:induction false} FilteredBackward(g: Program, g': Program, dead: seq<bool>, h: nat, p: Packet, s: State, s': State, f: nat)
    returns (f': nat)
    requires Filtered(g, g', dead) && IsPacket(p) && h in g.chains && Simulates(g, dead, s, s')
    requires Run(g', h, NoneDead(|g'.code|), p, s', f) != OutOfFuel
    ensures Run(g, h, dead, p, s, f') == Run(g', h, NoneDead(|g'.code|), p, s', f)
    decreases f, |dead| - s.pc
  {
    FilteredStep(g, g', dead, h, p, s, s');
    var none := NoneDead(|g'.code|);
    assert |dead| == |g.code| && h in g'.chains && f > 0 && s.pc <= |dead|;
    hide Filtered, Simulates, Step, Run;
    RunStep(g', h, none, p, s', f);
    match Step(g, h, dead, p, s)
    case Done(o) =>
      f' := 1;
    case Next(s1) =>
      if s.pc < |dead| && dead[s.pc] {
        f' := FilteredBackward(g, g', dead, h, p, s1, s', f);
      } else {
        f' := FilteredBackward(g, g', dead, h, p, s1, Step(g', h, none, p, s').s, f - 1);
      }
      f' := f' + 1;
    RunStep(g, h, dead, p, s, f');
  }

  /** Some amount of fuel ends the walk from hook `h` with `o`. */
  ghost predicate Ends(g: Program, h: nat, dead: seq<bool>, p: Packet, o: Outcome)
    requires h in g.chains && |dead| == |g.code|
  {
    o != OutOfFuel && exists f: nat :: Run(g, h, dead, p, Start(g, h, p), f) == o
  }

  lemma FilteredEnds(g: Program, g': Program, dead: seq<bool>, h: nat, p: Packet, o: Outcome)
    requires Filtered(g, g', dead) && IsPacket(p) && h in g.chains
    ensures Ends(g, h, dead, p, o) <==> Ends(g', h, NoneDead(|g'.code|), p, o)
  {
    var s, s' := Start(g, h, p), Start(g', h, p);
    assert Ranks(dead, s.stack) == s'.stack;
    if Ends(g, h, dead, p, o) {
      var f: nat :| Run(g, h, dead, p, s, f) == o;
      FilteredForward(g, g', dead, h, p, s, s', f);
    }
    if Ends(g', h, NoneDead(|g'.code|), p, o) {
      var f: nat :| Run(g', h, NoneDead(|g'.code|), p, s', f) == o;
      var f' := FilteredBackward(g, g', dead, h, p, s, s', f);
    }
  }
}
