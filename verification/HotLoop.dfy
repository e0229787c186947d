/** The hot-loop search and the op mix of loop bodies (src/nvidia/sass.rs). */
module HotLoop {
  import opened Wrappers
  import opened Sass
  import Census
  import Pattern

  datatype Instr = Instr(addr: nat, base: string, text: string)

  datatype Function = Function(name: string, instrs: seq<Instr>)

  /** Instruction `i` is a branch back to an address that is listed, first at `j`. */
  ghost predicate BackEdge(instrs: seq<Instr>, j: int, i: int) {
    && 0 <= j < |instrs| && 0 <= i < |instrs|
    && instrs[i].base == "BRA"
    && FirstTarget(instrs[i].text, instrs[j].addr)
    && instrs[j].addr < instrs[i].addr
    && (forall k :: 0 <= k < j ==> instrs[k].addr != instrs[j].addr)
  }

  ghost predicate Ascending(instrs: seq<Instr>) {
    forall i, j :: 0 <= i < j < |instrs| ==> instrs[i].addr < instrs[j].addr
  }

  /** No branch names a target wider than 64 bits. */
  ghost predicate Parsable(instrs: seq<Instr>) {
    forall i, t: nat :: 0 <= i < |instrs| && instrs[i].base == "BRA" && FirstTarget(instrs[i].text, t) ==> t <= U64_MAX
  }

  /** The body (lo, hi) beats every back edge whose branch stands before `bound`: by
      span, and among equal spans by coming first. */
  ghost predicate HottestBefore(instrs: seq<Instr>, lo: int, hi: int, bound: int) {
    && BackEdge(instrs, lo, hi)
    && hi < bound
    && forall j, i | BackEdge(instrs, j, i) && i < bound ::
         i - j <= hi - lo && (i - j == hi - lo ==> hi <= i)
  }

  ghost predicate Hottest(instrs: seq<Instr>, lo: int, hi: int) {
    HottestBefore(instrs, lo, hi, |instrs|)
  }

  lemma BackEdgesGoBack(instrs: seq<Instr>, j: int, i: int)
    requires Ascending(instrs) && BackEdge(instrs, j, i)
    ensures j < i
  {
  }

  lemma BackEdgeIsUnique(instrs: seq<Instr>, j: int, j': int, i: int)
    requires BackEdge(instrs, j, i) && BackEdge(instrs, j', i)
    ensures j == j'
  {
    FirstTargetIsUnique(instrs[i].text, instrs[j].addr, instrs[j'].addr);
  }

  datatype Best = NoLoop | Body(lo: nat, hi: nat) | Overflowed

  method Position(instrs: seq<Instr>, addr: nat) returns (at: Option<nat>)
    ensures at.Some? ==> at.value < |instrs| && instrs[at.value].addr == addr
    ensures forall k :: 0 <= k < (if at.Some? then at.value else |instrs|) ==> instrs[k].addr != addr
  {
    for k := 0 to |instrs|
      invariant forall i :: 0 <= i < k ==> instrs[i].addr != addr
    {
      if instrs[k].addr == addr {
        return Some(k);
      }
    }
    at := None;
  }

  /** The branch at `i` as the loop sees it: where its back edge lands, if it is one. */
  method Landing(instrs: seq<Instr>, i: nat) returns (j: Option<nat>, panicked: bool)
    requires i < |instrs|
    ensures panicked <==> Unreadable(instrs[i])
    ensures !panicked && j.Some? ==> BackEdge(instrs, j.value, i)
    ensures !panicked && j.None? ==> forall j' :: !BackEdge(instrs, j', i)
  {
    j, panicked := None, false;
    if instrs[i].base != "BRA" {
      return;
    }
    var target := BraTarget(instrs[i].text);
    match target {
      case Absent =>
        if Unreadable(instrs[i]) {
          var t: nat :| FirstTarget(instrs[i].text, t);
          FirstTargetIsUnique(instrs[i].text, t, 0);
        }
        forall j' | BackEdge(instrs, j', i)
          ensures false
        {
          FirstTargetIsUnique(instrs[i].text, instrs[j'].addr, 0);
        }
      case Unparsable =>
        panicked := true;
      case Address(tgt) =>
        forall t: nat | FirstTarget(instrs[i].text, t)
          ensures t == tgt
        {
          FirstTargetIsUnique(instrs[i].text, t, tgt);
        }
        if tgt < instrs[i].addr {
          j := Position(instrs, tgt);
        }
    }
  }

  /** A branch whose target the number parser refuses. */
  ghost predicate Unreadable(instr: Instr) {
    instr.base == "BRA" && exists t: nat :: FirstTarget(instr.text, t) && t > U64_MAX
  }

  ghost predicate Lands(instrs: seq<Instr>, i: int) {
    exists j :: BackEdge(instrs, j, i)
  }

  /** The branch at `i` lands on an instruction that is listed behind it. */
  ghost predicate Forward(instrs: seq<Instr>, i: int) {
    exists j :: BackEdge(instrs, j, i) && i < j
  }

  /** Two branches before `bound` land, one of them forward. */
  ghost predicate ForwardPair(instrs: seq<Instr>, bound: int) {
    exists i, i' :: i < bound && i' < bound && i != i' && Forward(instrs, i) && Lands(instrs, i')
  }

  /** The search does not come to an end. */
  ghost predicate Halts(instrs: seq<Instr>) {
    (exists i :: 0 <= i < |instrs| && Unreadable(instrs[i])) || ForwardPair(instrs, |instrs|)
  }

  /** The largest backward-branch body, first found on ties, on any list at all. The
      original underflows exactly when spans are compared and one of them runs forward,
      and its number parser panics exactly on a target wider than 64 bits. */
  method Search(instrs: seq<Instr>) returns (best: Best)
    ensures best.Overflowed? <==> Halts(instrs)
    ensures best.NoLoop? ==> forall j, i :: !BackEdge(instrs, j, i)
    ensures best.Body? ==> Hottest(instrs, best.lo, best.hi)
  {
    best := NoLoop;
    for i := 0 to |instrs|
      invariant Searched(instrs, best, i)
    {
      var landing, panicked := Landing(instrs, i);
      if panicked {
        return Overflowed;
      }
      if landing.None? {
        assert !Lands(instrs, i);
        StepOver(instrs, best, i);
      } else {
        var j := landing.value;
        if best.NoLoop? {
          FirstEdge(instrs, j, i);
          best := Body(j, i);
        } else if j > i || best.lo > best.hi {
          assert Lands(instrs, best.hi) && Lands(instrs, i);
          assert Forward(instrs, best.hi) || Forward(instrs, i);
          return Overflowed;
        } else {
          NextEdge(instrs, best.lo, best.hi, j, i);
          if i - j > best.hi - best.lo {
            best := Body(j, i);
          }
        }
      }
    }
  }

  /** What the search has established before branch `bound`. */
  ghost predicate Searched(instrs: seq<Instr>, best: Best, bound: int) {
    && (match best
        case NoLoop => forall j, k :: k < bound ==> !BackEdge(instrs, j, k)
        case Body(lo, hi) => HottestBefore(instrs, lo, hi, bound)
        case Overflowed => false)
    && (forall k :: 0 <= k < bound && k < |instrs| ==> !Unreadable(instrs[k]))
    && !ForwardPair(instrs, bound)
  }

  lemma StepOver(instrs: seq<Instr>, best: Best, i: nat)
    requires i < |instrs| && Searched(instrs, best, i) && !Unreadable(instrs[i]) && !Lands(instrs, i)
    ensures Searched(instrs, best, i + 1)
  {
    assert !Forward(instrs, i);
    forall j, k | k < i + 1 && BackEdge(instrs, j, k)
      ensures k < i
    {
      assert Lands(instrs, k);
    }
  }

  lemma OnlyEdge(instrs: seq<Instr>, j: int, i: int)
    requires BackEdge(instrs, j, i)
    ensures Lands(instrs, i) && (Forward(instrs, i) <==> i < j)
    ensures forall j' :: BackEdge(instrs, j', i) ==> j' == j
  {
    forall j' | BackEdge(instrs, j', i)
      ensures j' == j
    {
      BackEdgeIsUnique(instrs, j, j', i);
    }
  }

  lemma FirstEdge(instrs: seq<Instr>, j: nat, i: nat)
    requires i < |instrs| && Searched(instrs, NoLoop, i) && !Unreadable(instrs[i]) && BackEdge(instrs, j, i)
    ensures Searched(instrs, Body(j, i), i + 1)
  {
    OnlyEdge(instrs, j, i);
    forall k | k < i
      ensures !Lands(instrs, k) && !Forward(instrs, k)
    {
    }
  }

  lemma NextEdge(instrs: seq<Instr>, lo: nat, hi: nat, j: nat, i: nat)
    requires i < |instrs| && Searched(instrs, Body(lo, hi), i) && !Unreadable(instrs[i])
    requires BackEdge(instrs, j, i) && j <= i && lo <= hi
    ensures Searched(instrs, if i - j > hi - lo then Body(j, i) else Body(lo, hi), i + 1)
  {
    OnlyEdge(instrs, j, i);
    OnlyEdge(instrs, lo, hi);
    forall k | k < i + 1
      ensures !Forward(instrs, k)
    {
    }
    NextHottest(instrs, lo, hi, j, i);
  }

  lemma NextHottest(instrs: seq<Instr>, lo: nat, hi: nat, j: nat, i: nat)
    requires HottestBefore(instrs, lo, hi, i) && BackEdge(instrs, j, i)
    ensures if i - j > hi - lo then HottestBefore(instrs, j, i, i + 1) else HottestBefore(instrs, lo, hi, i + 1)
  {
    OnlyEdge(instrs, j, i);
  }

  lemma HottestIsUnique(instrs: seq<Instr>, lo: int, hi: int, lo': int, hi': int)
    requires Hottest(instrs, lo, hi) && Hottest(instrs, lo', hi')
    ensures lo == lo' && hi == hi'
  {
    assert hi - lo == hi' - lo';
  }

  // ---------------------------------------------------------------- the loop mix

  ghost predicate Loops(instrs: seq<Instr>) {
    exists lo, hi :: Hottest(instrs, lo, hi)
  }

  /** The body that the hottest back edge spans is an inclusive range, which may be
      empty but not less. */
  ghost predicate Crashes(instrs: seq<Instr>) {
    Halts(instrs) || exists lo, hi :: Hottest(instrs, lo, hi) && lo > hi + 1
  }

  /** The instructions of the hot-loop body, none when there is no loop. */
  ghost function HotBody(instrs: seq<Instr>): seq<Instr> {
    if exists lo, hi :: Hottest(instrs, lo, hi) && lo <= hi + 1 then
      var lo, hi :| Hottest(instrs, lo, hi) && lo <= hi + 1;
      instrs[lo..hi + 1]
    else []
  }

  /** On a well-formed list, with ascending addresses and readable targets, nothing
      crashes. */
  lemma WellFormedNeverCrashes(instrs: seq<Instr>)
    requires Ascending(instrs) && Parsable(instrs)
    ensures !Crashes(instrs)
  {
    forall i
      ensures !Forward(instrs, i)
    {
    }
    forall lo, hi | Hottest(instrs, lo, hi)
      ensures lo <= hi
    {
      BackEdgesGoBack(instrs, lo, hi);
    }
  }

  ghost function Uses(instrs: seq<Instr>, op: string): nat {
    if instrs == [] then 0
    else Uses(instrs[..|instrs| - 1], op) + if instrs[|instrs| - 1].base == op then 1 else 0
  }

  ghost predicate Named(kernel: seq<Pattern.Item>, name: string) {
    exists i, j :: 0 <= i <= j <= |name| && Pattern.Denotes(kernel, name[i..j])
  }

  ghost function BodyIn(f: Function, kernel: seq<Pattern.Item>): seq<Instr> {
    if Named(kernel, f.name) then HotBody(f.instrs) else []
  }

  ghost predicate LoopsIn(f: Function, kernel: seq<Pattern.Item>) {
    Named(kernel, f.name) && Loops(f.instrs)
  }

  ghost predicate CrashesIn(f: Function, kernel: seq<Pattern.Item>) {
    Named(kernel, f.name) && Crashes(f.instrs)
  }

  /** All hot-loop bodies of the matching functions, one after the other. */
  ghost function HotBodies(functions: seq<Function>, kernel: seq<Pattern.Item>): seq<Instr> {
    if functions == [] then []
    else HotBodies(functions[..|functions| - 1], kernel) + BodyIn(functions[|functions| - 1], kernel)
  }

  /** How many matching functions have a hot loop. */
  ghost function Looping(functions: seq<Function>, kernel: seq<Pattern.Item>): nat {
    if functions == [] then 0
    else
      Looping(functions[..|functions| - 1], kernel) + if LoopsIn(functions[|functions| - 1], kernel) then 1 else 0
  }

  lemma HotBodyIs(instrs: seq<Instr>, lo: int, hi: int)
    requires Hottest(instrs, lo, hi)
    ensures Crashes(instrs) <==> Halts(instrs) || lo > hi + 1
    ensures lo <= hi + 1 ==> HotBody(instrs) == instrs[lo..hi + 1]
  {
    forall lo', hi' | Hottest(instrs, lo', hi')
      ensures lo' == lo && hi' == hi
    {
      HottestIsUnique(instrs, lo, hi, lo', hi');
    }
  }

  lemma NoHotBody(instrs: seq<Instr>)
    requires forall j, i :: !BackEdge(instrs, j, i)
    ensures HotBody(instrs) == [] && !Loops(instrs) && (Crashes(instrs) <==> Halts(instrs))
  {
  }

  /** What the loop over the functions has established before function `k`. */
  ghost predicate MixedBefore(functions: seq<Function>, kernel: seq<Pattern.Item>, k: nat, bodies: seq<Instr>,
                              matched: nat)
  {
    && k <= |functions|
    && bodies == HotBodies(functions[..k], kernel)
    && matched == Looping(functions[..k], kernel)
    && forall i :: 0 <= i < k ==> !CrashesIn(functions[i], kernel)
  }

  lemma MixStep(functions: seq<Function>, kernel: seq<Pattern.Item>, k: nat, bodies: seq<Instr>, matched: nat)
    requires k < |functions| && MixedBefore(functions, kernel, k, bodies, matched)
    requires !CrashesIn(functions[k], kernel)
    ensures MixedBefore(functions, kernel, k + 1, bodies + BodyIn(functions[k], kernel),
                        matched + if LoopsIn(functions[k], kernel) then 1 else 0)
  {
    assert functions[..k + 1][..k] == functions[..k];
  }

  /** The counter holds exactly what these instructions use. */
  ghost predicate Tallies(items: seq<Census.Entry>, bodies: seq<Instr>) {
    && (forall op :: Census.Count(items, op) == Uses(bodies, op))
    && Census.Total(items) == |bodies|
    && Census.Distinct(items)
  }

  lemma TallyOne(before: seq<Census.Entry>, after: seq<Census.Entry>, bodies: seq<Instr>, instr: Instr)
    requires Tallies(before, bodies) && Census.Added(before, after, instr.base, 1) && Census.Distinct(after)
    ensures Tallies(after, bodies + [instr])
  {
    assert (bodies + [instr])[..|bodies|] == bodies;
  }

  method AddBody(mix: Census.Counter, body: seq<Instr>, ghost bodies: seq<Instr>)
    requires Tallies(mix.items, bodies)
    modifies mix
    ensures Tallies(mix.items, bodies + body)
  {
    assert bodies + body[..0] == bodies;
    for k := 0 to |body|
      invariant Tallies(mix.items, bodies + body[..k])
    {
      ghost var before := mix.items;
      mix.Add(body[k].base, 1);
      TallyOne(before, mix.items, bodies + body[..k], body[k]);
      assert bodies + body[..k + 1] == bodies + body[..k] + [body[k]];
    }
    assert body[..|body|] == body;
  }

  /** One function of the file, the body of the loop: `body` is what it added. */
  method MixFunction(f: Function, kernel: seq<Pattern.Item>, mix: Census.Counter, ghost bodies: seq<Instr>)
    returns (matched: bool, panicked: bool, ghost body: seq<Instr>)
    requires Tallies(mix.items, bodies)
    modifies mix
    ensures panicked <==> CrashesIn(f, kernel)
    ensures Tallies(mix.items, bodies + body)
    ensures !panicked ==> body == BodyIn(f, kernel) && (matched <==> LoopsIn(f, kernel))
  {
    matched, panicked, body := false, false, [];
    assert bodies + [] == bodies;
    var named := Pattern.IsMatch(kernel, f.name);
    if !named {
      return;
    }
    var best := Search(f.instrs);
    match best {
      case Overflowed =>
        panicked := true;
      case NoLoop =>
        NoHotBody(f.instrs);
      case Body(lo, hi) =>
        HotBodyIs(f.instrs, lo, hi);
        if lo > hi + 1 {
          panicked := true;
          return;
        }
        matched := true;
        body := f.instrs[lo..hi + 1];
        AddBody(mix, f.instrs[lo..hi + 1], bodies);
    }
  }

  ghost predicate SomeCrashes(functions: seq<Function>, kernel: seq<Pattern.Item>) {
    exists k :: 0 <= k < |functions| && CrashesIn(functions[k], kernel)
  }

  /** The mix counts every op exactly as often as the matching hot-loop bodies use it,
      so its total is their total length; `matched` counts those bodies. It panics
      exactly when some matching function crashes. */
  method LoopMix(functions: seq<Function>, kernel: seq<Pattern.Item>)
    returns (mix: Census.Counter, matched: nat, panicked: bool)
    ensures fresh(mix)
    ensures panicked <==> SomeCrashes(functions, kernel)
    ensures !panicked ==>
      && Tallies(mix.items, HotBodies(functions, kernel))
      && matched == Looping(functions, kernel)
  {
    mix := new Census.Counter();
    matched, panicked := 0, false;
    ghost var bodies: seq<Instr> := [];
    for k := 0 to |functions|
      invariant fresh(mix)
      invariant Tallies(mix.items, bodies)
      invariant MixedBefore(functions, kernel, k, bodies, matched)
    {
      var looped, failed, body := MixFunction(functions[k], kernel, mix, bodies);
      if failed {
        panicked := true;
        return;
      }
      MixStep(functions, kernel, k, bodies, matched);
      if looped {
        matched := matched + 1;
      }
      bodies := bodies + body;
    }
    assert functions[..|functions|] == functions;
  }
}
