/**
 The second sign-in factor of one enrolment: TOTP steps that may be used once,
 in order, and recovery codes that may be used once each, checked by requests
 that run concurrently against one database row.
 */
module SecondFactor {
  import opened Wrappers

  /** The digest of a recovery code. */
  type Hash = string

  /** The list without the first occurrence of `h`. */
  function RemoveFirst(codes: seq<Hash>, h: Hash): seq<Hash> {
    if codes == [] then []
    else if codes[0] == h then codes[1..]
    else [codes[0]] + RemoveFirst(codes[1..], h)
  }

  lemma {:induction false} RemoveFirstRemovesOne(codes: seq<Hash>, h: Hash)
    requires h in codes
    ensures multiset(RemoveFirst(codes, h)) + multiset{h} == multiset(codes)
    ensures |RemoveFirst(codes, h)| == |codes| - 1
  {
    assert codes == [codes[0]] + codes[1..];
    if codes[0] != h {
      RemoveFirstRemovesOne(codes[1..], h);
    }
  }

  /** Only the first match goes; whatever follows stays. */
  lemma {:induction false} RemoveFirstOfMore(codes: seq<Hash>, last: Hash, h: Hash)
    ensures h !in codes ==> RemoveFirst(codes, h) == codes
    ensures RemoveFirst(codes + [last], h) == RemoveFirst(codes, h) + (if h !in codes && last == h then [] else [last])
  {
    if codes != [] {
      assert (codes + [last])[1..] == codes[1..] + [last];
      RemoveFirstOfMore(codes[1..], last, h);
    }
  }

  // ------------------------------------------------------- concurrent checks

  /** A request that has read the codes and, having found its own among them, is about to swap them. */
  datatype Swap = Swap(read: seq<Hash>, hash: Hash, usesSeen: nat)

  /** `steps` and `used` are what has been accepted so far, oldest first. */
  datatype State = State(
    lastStep: int,
    codes: seq<Hash>,
    advancing: map<nat, int>,
    swapping: map<nat, Swap>,
    steps: seq<int>,
    used: seq<Hash>)

  datatype Event =
    | VerifiedStep(call: nat, step: int)
    | Advance(call: nat)
    | ReadCodes(call: nat, hash: Hash)
    | CompareAndSwap(call: nat)

  ghost predicate Enabled(s: State, e: Event) {
    match e
    case VerifiedStep(c, _) => c !in s.advancing && c !in s.swapping
    case Advance(c) => c in s.advancing
    case ReadCodes(c, _) => c !in s.advancing && c !in s.swapping
    case CompareAndSwap(c) => c in s.swapping
  }

  /** The conditional update succeeds only from a smaller step. */
  function AdvanceStep(s: State, c: nat): State
    requires c in s.advancing
  {
    var step := s.advancing[c];
    var t := s.(advancing := s.advancing - {c});
    if s.lastStep < step then t.(lastStep := step, steps := s.steps + [step]) else t
  }

  /** The conditional update succeeds only while the row holds the list that was read. */
  function SwapStep(s: State, c: nat): State
    requires c in s.swapping
  {
    var swap := s.swapping[c];
    var t := s.(swapping := s.swapping - {c});
    if s.codes == swap.read then t.(codes := RemoveFirst(swap.read, swap.hash), used := s.used + [swap.hash]) else t
  }

  function Step(s: State, e: Event): State
    requires e.Advance? ==> e.call in s.advancing
    requires e.CompareAndSwap? ==> e.call in s.swapping
  {
    match e
    case VerifiedStep(c, step) => s.(advancing := s.advancing[c := step])
    case Advance(c) => AdvanceStep(s, c)
    case ReadCodes(c, h) => if h in s.codes then s.(swapping := s.swapping[c := Swap(s.codes, h, |s.used|)]) else s
    case CompareAndSwap(c) => SwapStep(s, c)
  }

  function Enrolled(lastStep: int, codes: seq<Hash>): State {
    State(lastStep, codes, map[], map[], [], [])
  }

  ghost predicate IsRun(states: seq<State>, events: seq<Event>, lastStep: int, codes: seq<Hash>) {
    && |states| == |events| + 1 && states[0] == Enrolled(lastStep, codes)
    && forall i :: 0 <= i < |events| ==> Enabled(states[i], events[i]) && states[i + 1] == Step(states[i], events[i])
  }

  ghost predicate Ascending(s: seq<int>) {
    forall i, j :: 0 <= i < j < |s| ==> s[i] < s[j]
  }

  /** A list that was read is the present one if no use followed; each use since has taken one code away. */
  ghost predicate SwapInv(s: State, swap: Swap) {
    && swap.hash in swap.read
    && swap.usesSeen <= |s.used|
    && (swap.usesSeen == |s.used| ==> swap.read == s.codes)
    && |swap.read| - |s.codes| == |s.used| - swap.usesSeen
  }

  ghost predicate Inv(s: State, lastStep: int, codes: seq<Hash>) {
    && Ascending(s.steps)
    && (forall i :: 0 <= i < |s.steps| ==> lastStep < s.steps[i] <= s.lastStep)
    && lastStep <= s.lastStep
    && multiset(s.codes) + multiset(s.used) == multiset(codes)
    && (forall c :: c in s.swapping ==> SwapInv(s, s.swapping[c]))
  }

  lemma SwapKeepsInv(s: State, c: nat, lastStep: int, codes: seq<Hash>)
    requires Inv(s, lastStep, codes) && c in s.swapping
    ensures Inv(SwapStep(s, c), lastStep, codes)
  {
    var swap, t := s.swapping[c], SwapStep(s, c);
    assert SwapInv(s, swap);
    if s.codes == swap.read {
      RemoveFirstRemovesOne(s.codes, swap.hash);
      assert multiset(t.used) == multiset(s.used) + multiset{swap.hash};
    }
  }

  lemma StepKeepsInv(s: State, e: Event, lastStep: int, codes: seq<Hash>)
    requires Inv(s, lastStep, codes) && Enabled(s, e)
    ensures Inv(Step(s, e), lastStep, codes)
  {
    if e.CompareAndSwap? { SwapKeepsInv(s, e.call, lastStep, codes); }
  }

  lemma {:induction false} RunKeepsInv(
    states: seq<State>, events: seq<Event>, lastStep: int, codes: seq<Hash>, i: nat)
    requires IsRun(states, events, lastStep, codes) && i < |states|
    ensures Inv(states[i], lastStep, codes)
  {
    if i > 0 {
      RunKeepsInv(states, events, lastStep, codes, i - 1);
      StepKeepsInv(states[i - 1], events[i - 1], lastStep, codes);
    }
  }

  /** However requests interleave, each accepted step is later than every step accepted before it. */
  lemma StepsAreSingleUse(states: seq<State>, events: seq<Event>, lastStep: int, codes: seq<Hash>, i: nat)
    requires IsRun(states, events, lastStep, codes) && i < |states|
    ensures Ascending(states[i].steps)
    ensures forall k :: 0 <= k < |states[i].steps| ==> states[i].steps[k] > lastStep
  {
    RunKeepsInv(states, events, lastStep, codes, i);
  }

  /** Remaining codes and used ones are always exactly the codes that were issued. */
  lemma CodesAreConserved(states: seq<State>, events: seq<Event>, lastStep: int, codes: seq<Hash>, i: nat)
    requires IsRun(states, events, lastStep, codes) && i < |states|
    ensures multiset(states[i].codes) + multiset(states[i].used) == multiset(codes)
  {
    RunKeepsInv(states, events, lastStep, codes, i);
  }

  /** So no code is accepted more often than it was issued. */
  lemma CodesAreSingleUse(states: seq<State>, events: seq<Event>, lastStep: int, codes: seq<Hash>, i: nat, h: Hash)
    requires IsRun(states, events, lastStep, codes) && i < |states|
    ensures multiset(states[i].used)[h] <= multiset(codes)[h]
  {
    CodesAreConserved(states, events, lastStep, codes, i);
    assert (multiset(states[i].codes) + multiset(states[i].used))[h] == multiset(codes)[h];
  }

  /** A swap of a code that was found fails exactly when another code was used since it was read. */
  lemma SwapFailsIffAnotherUse(
    states: seq<State>, events: seq<Event>, lastStep: int, codes: seq<Hash>, i: nat)
    requires IsRun(states, events, lastStep, codes) && i < |events| && events[i].CompareAndSwap?
    ensures events[i].call in states[i].swapping
    ensures states[i + 1].used == states[i].used <==> states[i].swapping[events[i].call].usesSeen < |states[i].used|
  {
    RunKeepsInv(states, events, lastStep, codes, i);
    var swap := states[i].swapping[events[i].call];
    assert SwapInv(states[i], swap);
    if swap.usesSeen == |states[i].used| { assert |states[i + 1].used| == |states[i].used| + 1; }
  }

  // --------------------------------------------------------- one check alone

  const PERIOD: int := 30
  const DIGITS: nat := 6

  /** The step number of a time in seconds, from the epoch on. */
  function StepOf(seconds: nat): int {
    seconds / PERIOD
  }

  /** The step of 30 seconds a six-digit code is accepted for: the current one, else the one before, else the next. */
  predicate AcceptedFor(codeOf: int -> Option<string>, code: string, seconds: nat, step: int) {
    var cur := seconds / 30;
    && |code| == 6 && codeOf(step) == Some(code)
    && (step == cur
        || (step == cur - 1 && codeOf(cur) != Some(code))
        || (step == cur + 1 && codeOf(cur) != Some(code) && codeOf(cur - 1) != Some(code)))
  }

  /** A code as entered, without white space at its ends and without blanks. */
  function Clean(isSpace: char -> bool, entered: string): string {
    WithoutBlanks(Trimmed(isSpace, entered))
  }

  function Trimmed(isSpace: char -> bool, s: string): string {
    if s == "" then ""
    else if isSpace(s[0]) then Trimmed(isSpace, s[1..])
    else if isSpace(s[|s| - 1]) then Trimmed(isSpace, s[..|s| - 1])
    else s
  }

  function WithoutBlanks(s: string): string {
    if s == "" then "" else (if s[0] == ' ' then "" else [s[0]]) + WithoutBlanks(s[1..])
  }

  /** What is taken off is white space, and what is left begins and ends with something else. */
  lemma {:induction false} TrimmedIsTheMiddle(isSpace: char -> bool, s: string) returns (i: nat, j: nat)
    ensures i <= j <= |s| && Trimmed(isSpace, s) == s[i..j]
    ensures forall k :: 0 <= k < i || j <= k < |s| ==> isSpace(s[k])
    ensures i < j ==> !isSpace(s[i]) && !isSpace(s[j - 1])
  {
    if s != "" && isSpace(s[0]) {
      var m, n := TrimmedIsTheMiddle(isSpace, s[1..]);
      i, j := m + 1, n + 1;
      assert forall k :: 0 <= k < |s| - 1 ==> s[1..][k] == s[k + 1];
      assert s[1..][m..n] == s[i..j];
      forall k | 0 <= k < i || j <= k < |s| ensures isSpace(s[k]) {
        if k > 0 { assert isSpace(s[1..][k - 1]); }
      }
    } else if s != "" && isSpace(s[|s| - 1]) {
      i, j := TrimmedIsTheMiddle(isSpace, s[..|s| - 1]);
      assert s[..|s| - 1][i..j] == s[i..j];
    } else {
      i, j := 0, |s|;
    }
  }

  /** Character by character: a blank leaves nothing, anything else stays, in its order. */
  lemma {:induction false} BlanksAloneGo(s: string, t: string)
    ensures WithoutBlanks(s + t) == WithoutBlanks(s) + WithoutBlanks(t)
    ensures |s| == 1 ==> WithoutBlanks(s) == if s[0] == ' ' then "" else s
  {
    if s == "" {
      assert s + t == t;
    } else {
      if |s| == 1 { assert WithoutBlanks(s[1..]) == "" && s == [s[0]]; }
      BlanksAloneGo(s[1..], t);
      assert (s + t)[1..] == s[1..] + t;
    }
  }

  /** `codeOf` gives the code of a step under the secret, if there is one. */
  method VerifyTOTP(codeOf: int -> Option<string>, isSpace: char -> bool, entered: string, seconds: nat)
    returns (step: int, ok: bool)
    ensures var code := Clean(isSpace, entered);
            && (ok <==> && |code| == 6
                        && exists s :: seconds / 30 - 1 <= s <= seconds / 30 + 1 && codeOf(s) == Some(code))
            && (ok ==> AcceptedFor(codeOf, code, seconds, step))
  {
    var code := Clean(isSpace, entered);
    step, ok := FindStep(codeOf, code, seconds);
  }

  method FindStep(codeOf: int -> Option<string>, code: string, seconds: nat) returns (step: int, ok: bool)
    ensures ok <==> && |code| == 6
                    && exists s :: seconds / 30 - 1 <= s <= seconds / 30 + 1 && codeOf(s) == Some(code)
    ensures ok ==> AcceptedFor(codeOf, code, seconds, step)
  {
    if |code| != DIGITS {
      return 0, false;
    }
    var cur := StepOf(seconds);
    var candidates := [cur, cur - 1, cur + 1];
    for i := 0 to 3
      invariant forall j :: 0 <= j < i ==> codeOf(candidates[j]) != Some(code)
    {
      if codeOf(candidates[i]) == Some(code) {
        assert i > 0 ==> codeOf(candidates[0]) != Some(code);
        assert i > 1 ==> codeOf(candidates[1]) != Some(code);
        return candidates[i], true;
      }
    }
    assert codeOf(candidates[0]) != Some(code) && codeOf(candidates[1]) != Some(code);
    forall s | cur - 1 <= s <= cur + 1 ensures codeOf(s) != Some(code) {
      assert s == candidates[0] || s == candidates[1] || s == candidates[2];
    }
    return 0, false;
  }

  datatype Outcome = Totp | RecoveryCode | Invalid | Broken

  class MfaRow {
    var enabled: bool
    var lastStep: int
    var codes: seq<Hash>

    constructor (enabled: bool, lastStep: int, codes: seq<Hash>)
      ensures this.enabled == enabled && this.lastStep == lastStep && this.codes == codes
    {
      this.enabled, this.lastStep, this.codes := enabled, lastStep, codes;
    }

    method AdvanceMFAStep(step: int) returns (fresh_: bool)
      modifies this`lastStep
      ensures fresh_ == (old(lastStep) < step)
      ensures lastStep == if fresh_ then step else old(lastStep)
    {
      fresh_ := lastStep < step;
      if fresh_ {
        lastStep := step;
      }
    }

    /** Filters out the first match; `found` remembers that it was met. */
    static method Filter(codes: seq<Hash>, hash: Hash) returns (left: seq<Hash>, found: bool)
      ensures found == (hash in codes) && left == RemoveFirst(codes, hash)
    {
      left, found := [], false;
      for i := 0 to |codes|
        invariant found == (hash in codes[..i]) && left == RemoveFirst(codes[..i], hash)
      {
        assert codes[..i + 1] == codes[..i] + [codes[i]];
        RemoveFirstOfMore(codes[..i], codes[i], hash);
        if !found && codes[i] == hash {
          found := true;
        } else {
          left := left + [codes[i]];
        }
      }
      assert codes[..|codes|] == codes;
    }

    /** Uses up one code; with nothing in between, the swap meets the list it read. */
    method ConsumeRecoveryCode(hash: Hash) returns (ok: bool)
      modifies this`codes
      ensures ok == (hash in old(codes))
      ensures codes == if ok then RemoveFirst(old(codes), hash) else old(codes)
      ensures ok ==> multiset(codes) + multiset{hash} == multiset(old(codes))
    {
      var read := codes;
      var left, found := Filter(read, hash);
      if !found {
        return false;
      }
      RemoveFirstRemovesOne(codes, hash);
      if codes == read {
        codes := left;
        return true;
      }
      return false;
    }

    /**
     A recovery code when one is given, otherwise a TOTP code; which it was, or
     neither. `opens` is whether the secret can be unsealed, `dbUp` whether the
     database carries out its statements.
     */
    method CheckSecondFactor(
      codeOf: int -> Option<string>, isSpace: char -> bool, entered: string, recovery: Option<Hash>, seconds: nat,
      opens: bool, dbUp: bool)
      returns (outcome: Outcome)
      modifies this`codes, this`lastStep
      ensures outcome == RecoveryCode <==> enabled && recovery.Some? && recovery.value in old(codes) && dbUp
      ensures codes == if outcome == RecoveryCode then RemoveFirst(old(codes), recovery.value) else old(codes)
      ensures outcome == Broken <==> enabled && recovery.None? && !opens
      ensures outcome == Totp <==>
                && enabled && recovery.None? && opens && dbUp
                && exists step :: step > old(lastStep) && AcceptedFor(codeOf, Clean(isSpace, entered), seconds, step)
      ensures if outcome == Totp then
                lastStep > old(lastStep) && AcceptedFor(codeOf, Clean(isSpace, entered), seconds, lastStep)
              else lastStep == old(lastStep)
    {
      if !enabled {
        return Invalid;
      }
      if recovery.Some? {
        if !dbUp {
          return Invalid;
        }
        var used := ConsumeRecoveryCode(recovery.value);
        return if used then RecoveryCode else Invalid;
      }
      if !opens {
        return Broken;
      }
      var step, ok := VerifyTOTP(codeOf, isSpace, entered, seconds);
      if !ok || !dbUp {
        return Invalid;
      }
      var fresh_ := AdvanceMFAStep(step);
      return if fresh_ then Totp else Invalid;
    }
  }
}
