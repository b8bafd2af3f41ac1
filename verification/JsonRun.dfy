/** A run of the tokenizer, one lexeme at a time: the tokens it leaves, and the stack machine it agrees with. */
module JsonRun {
  import opened JsonScan
  import opened JsonTokens

  /** The parser and its tokens; parents holds the superior token each token was put under. */
  datatype State = State(pos: nat, ts: seq<Token>, super: int, parents: seq<int>)

  predicate WellFormed(js: string, s: State)
  {
    s.pos <= |js| && -1 <= s.super < |s.ts|
  }

  /** The last open token; -1 when there is none. */
  function Innermost(ts: seq<Token>): (i: int)
    ensures -1 <= i < |ts|
  {
    if ts == [] then -1
    else if IsOpen(ts[|ts| - 1]) then |ts| - 1
    else Innermost(ts[..|ts| - 1])
  }

  lemma {:induction false} InnermostOpen(ts: seq<Token>)
    ensures IsLast(ts, Innermost(ts))
  {
    if ts != [] && !IsOpen(ts[|ts| - 1]) {
      InnermostOpen(ts[..|ts| - 1]);
    }
  }

  lemma {:induction false} InnermostIs(ts: seq<Token>, i: int)
    requires IsLast(ts, i)
    ensures Innermost(ts) == i
  {
    if ts != [] && i < |ts| - 1 {
      InnermostIs(ts[..|ts| - 1], i);
    }
  }

  lemma {:induction false} InnermostPrefix(ts: seq<Token>, n: nat)
    requires n <= |ts| && forall j :: n <= j < |ts| ==> !IsOpen(ts[j])
    ensures Innermost(ts) == Innermost(ts[..n])
    decreases |ts|
  {
    if n < |ts| {
      InnermostPrefix(ts[..|ts| - 1], n);
      assert ts[..|ts| - 1][..n] == ts[..n];
    } else {
      assert ts[..n] == ts;
    }
  }

  /** The last open container, by its kind too, as the scan behind a comma looks for it. */
  function InnermostContainer(ts: seq<Token>): (i: int)
    ensures -1 <= i < |ts|
  {
    if ts == [] then -1
    else
      var t := ts[|ts| - 1];
      if IsOpen(t) && t.kind in {Object, Array} then |ts| - 1 else InnermostContainer(ts[..|ts| - 1])
  }

  /** In the tokens of a parse it is the last open token. */
  lemma {:induction false} ContainersOnly(ts: seq<Token>, js: string, p: nat)
    requires forall i :: 0 <= i < |ts| ==> Faithful(js, p, ts[i])
    ensures InnermostContainer(ts) == Innermost(ts)
  {
    if ts != [] {
      assert Faithful(js, p, ts[|ts| - 1]);
      ContainersOnly(ts[..|ts| - 1], js, p);
    }
  }

  /** The superior token behind white space, a colon or a comma. */
  function AfterSeparator(c: char, ts: seq<Token>, super: int): int
    requires -1 <= super < |ts|
  {
    if c == ':' then |ts| - 1
    else if c == ',' && super != -1 && ts[super].kind !in {Object, Array} && InnermostContainer(ts) != -1
    then InnermostContainer(ts)
    else super
  }

  function Added(s: State, t: Token, pos: nat, super: int): State
    requires -1 <= s.super < |s.ts|
  {
    State(pos, Bump(s.ts + [t], s.super), super, s.parents + [s.super])
  }

  function Ending(s: State, i: nat): State
    requires i < |s.ts|
  {
    var us := s.ts[i := s.ts[i].(end := s.pos + 1)];
    State(s.pos + 1, us, Innermost(us), s.parents)
  }

  /** One lexeme: an error leaves everything as it was. */
  function Step(js: string, s: State, size: nat): (int, State)
    requires !Ended(js, s.pos) && WellFormed(js, s)
  {
    match Lex(js, s.pos)
    case Bad(code) => (code, s)
    case Skip => (0, s.(pos := s.pos + 1, super := AfterSeparator(js[s.pos], s.ts, s.super)))
    case Opens(k) =>
      if |s.ts| >= size then (ERROR_NOMEM, s)
      else (0, Added(s, Token(k, s.pos, -1, 0), s.pos + 1, |s.ts|))
    case Closes(k) =>
      var i := Innermost(s.ts);
      if i == -1 || s.ts[i].kind != k then (ERROR_INVAL, s)
      else (0, Ending(s, i))
    case Leaf(k, start, end, next) =>
      if |s.ts| >= size then (ERROR_NOMEM, s)
      else (0, Added(s, Token(k, start, end, 0), next, s.super))
  }

  function Run(js: string, s: State, size: nat): (int, State)
    requires WellFormed(js, s)
    decreases |js| - s.pos
  {
    if Ended(js, s.pos) then (if Innermost(s.ts) == -1 then |s.ts| else ERROR_PART, s)
    else
      var (code, t) := Step(js, s, size);
      if code < 0 then (code, t) else Run(js, t, size)
  }

  lemma StepGrows(js: string, s: State, size: nat)
    requires !Ended(js, s.pos) && WellFormed(js, s) && |s.ts| <= size
    ensures var (code, t) := Step(js, s, size);
      WellFormed(js, t) && |t.ts| <= size && (code >= 0 ==> s.pos < t.pos)
  {
  }

  // ----- every token tells the truth

  predicate SoundState(js: string, s: State)
  {
    Sound(js, s.pos, s.ts, s.super, s.parents)
  }

  lemma LeafFaithful(js: string, p: nat)
    requires !Ended(js, p) && Lex(js, p).Leaf?
    ensures var lex := Lex(js, p); var t := Token(lex.kind, lex.start, lex.end, 0);
      p <= t.start && Faithful(js, lex.next, t) && !IsOpen(t)
  {
  }

  lemma SoundAdded(js: string, s: State, t: Token, pos: nat, super: int)
    requires SoundState(js, s) && s.pos <= t.start && s.pos <= pos && Faithful(js, pos, t) && t.size == 0
    requires -1 <= super <= |s.ts|
    ensures SoundState(js, Added(s, t, pos, super))
  {
    BumpAppend(s.ts, t, s.super);
    SoundAppend(js, s.pos, pos, s.ts, s.super, s.parents, t, super);
    hide Sound, Faithful, Bump;
  }

  lemma ClosingBracket(js: string, p: nat)
    requires !Ended(js, p) && Lex(js, p).Closes?
    ensures var k := Lex(js, p).kind; (k == Object || k == Array) && js[p] == Bracket(k).1
  {
  }

  lemma SoundEnding(js: string, s: State, i: nat)
    requires s.pos < |js| && SoundState(js, s) && IsLast(s.ts, i)
    requires (s.ts[i].kind.Object? || s.ts[i].kind.Array?) && js[s.pos] == Bracket(s.ts[i].kind).1
    ensures SoundState(js, Ending(s, i))
  {
    var us := s.ts[i := s.ts[i].(end := s.pos + 1)];
    var top := Innermost(us);
    hide Sound, Faithful, Innermost, Bracket, IsLast;
    SoundClose(js, s.pos, s.ts, s.super, s.parents, i, top);
  }

  lemma SoundCloses(js: string, s: State, size: nat)
    requires !Ended(js, s.pos) && SoundState(js, s) && Lex(js, s.pos).Closes?
    ensures SoundState(js, Step(js, s, size).1)
  {
    var i := Innermost(s.ts);
    InnermostOpen(s.ts);
    ClosingBracket(js, s.pos);
    hide Sound, Faithful, Ending, Lex, Innermost, Bracket, IsLast;
    if i != -1 && s.ts[i].kind == Lex(js, s.pos).kind {
      SoundEnding(js, s, i);
    }
  }

  lemma SoundStep(js: string, s: State, size: nat)
    requires !Ended(js, s.pos) && SoundState(js, s)
    ensures SoundState(js, Step(js, s, size).1)
  {
    var p := s.pos;
    match Lex(js, p)
    case Bad(_) =>
    case Skip => SoundLater(js, p, p + 1, s.ts, s.super, AfterSeparator(js[p], s.ts, s.super), s.parents);
    case Opens(k) =>
      var t := Token(k, p, -1, 0);
      assert Faithful(js, p + 1, t);
      hide Sound, Faithful, Bump, Added, Lex;
      SoundAdded(js, s, t, p + 1, |s.ts|);
    case Closes(k) =>
      SoundCloses(js, s, size);
    case Leaf(k, start, end, next) =>
      LeafFaithful(js, p);
      hide Sound, Faithful, Bump, Added, Lex;
      SoundAdded(js, s, Token(k, start, end, 0), next, s.super);
  }

  /** Sound tokens stay sound over a whole run, whatever it returns; after a success every token is closed. */
  lemma {:induction false} SoundRun(js: string, s: State, size: nat)
    requires SoundState(js, s)
    ensures var (r, t) := Run(js, s, size);
      SoundState(js, t) && (r >= 0 ==> r == |t.ts| && forall i :: 0 <= i < |t.ts| ==> !IsOpen(t.ts[i]))
    decreases |js| - s.pos
  {
    InnermostOpen(s.ts);
    if !Ended(js, s.pos) {
      SoundStep(js, s, size);
      var (code, t) := Step(js, s, size);
      if code >= 0 {
        SoundRun(js, t, size);
      }
    }
  }

  // ----- the tokens as a stack

  lemma TopIsInnermost(ts: seq<Token>)
    ensures var i := Innermost(ts);
      if i == -1 then OpenKinds(ts) == []
      else OpenKinds(ts) != [] && OnTop(ts[i].kind, OpenKinds(ts))
  {
    InnermostOpen(ts);
    OpenTop(ts, Innermost(ts));
  }

  /** One lexeme on the tokens is one step of the stack machine. */
  ghost predicate StepAgrees(js: string, s: State, size: nat)
    requires !Ended(js, s.pos) && WellFormed(js, s) && |s.ts| <= size
  {
    var (code, t) := Step(js, s, size);
    && |t.ts| <= size
    && Outcome(js, s.pos, OpenKinds(s.ts), |s.ts|, size)
       == if code < 0 then code else Outcome(js, t.pos, OpenKinds(t.ts), |t.ts|, size)
  }

  lemma ClosesAgree(js: string, s: State, size: nat)
    requires !Ended(js, s.pos) && WellFormed(js, s) && |s.ts| <= size && Lex(js, s.pos).Closes?
    ensures StepAgrees(js, s, size)
  {
    var open, k := OpenKinds(s.ts), Lex(js, s.pos).kind;
    VerdictStep(js, s.pos, open, size - |s.ts|, |s.ts|);
    InnermostOpen(s.ts);
    TopIsInnermost(s.ts);
    hide Verdict, OpenKinds, Bump, Lex, Innermost, Pop, IsLast;
    var i := Innermost(s.ts);
    if i != -1 && s.ts[i].kind == k {
      OpenClosed(s.ts, i, s.ts[i].(end := s.pos + 1));
    }
  }

  lemma AddedAgrees(js: string, s: State, size: nat, t: Token, pos: nat, super: int)
    requires !Ended(js, s.pos) && WellFormed(js, s) && |s.ts| <= size
    requires Step(js, s, size) == if |s.ts| >= size then (ERROR_NOMEM, s) else (0, Added(s, t, pos, super))
    requires var lex, room, count := Lex(js, s.pos), size - |s.ts|, |s.ts|;
      var open := if IsOpen(t) then OpenKinds(s.ts) + [t.kind] else OpenKinds(s.ts);
      Verdict(js, s.pos, OpenKinds(s.ts), room, count)
      == if room == 0 then ERROR_NOMEM else Verdict(js, pos, open, room - 1, count + 1)
    ensures StepAgrees(js, s, size)
  {
    OpenAdded(s.ts, t, s.super);
    hide Verdict, OpenKinds, Bump, Step, Innermost, IsOpen;
  }

  lemma StepVerdict(js: string, s: State, size: nat)
    requires !Ended(js, s.pos) && WellFormed(js, s) && |s.ts| <= size
    ensures StepAgrees(js, s, size)
  {
    VerdictStep(js, s.pos, OpenKinds(s.ts), size - |s.ts|, |s.ts|);
    match Lex(js, s.pos)
    case Closes(_) => ClosesAgree(js, s, size);
    case Opens(k) =>
      hide Verdict, OpenKinds, Lex, Added;
      AddedAgrees(js, s, size, Token(k, s.pos, -1, 0), s.pos + 1, |s.ts|);
    case Leaf(k, start, end, next) =>
      hide Verdict, OpenKinds, Lex, Added;
      AddedAgrees(js, s, size, Token(k, start, end, 0), next, s.super);
    case _ => hide Verdict, OpenKinds, Lex, Innermost;
  }

  /** The backward scans over the tokens decide what the stack machine decides. */
  lemma {:induction false} RunVerdict(js: string, s: State, size: nat)
    requires WellFormed(js, s) && |s.ts| <= size
    ensures Run(js, s, size).0 == Outcome(js, s.pos, OpenKinds(s.ts), |s.ts|, size)
    decreases |js| - s.pos
  {
    if Ended(js, s.pos) {
      TopIsInnermost(s.ts);
    } else {
      StepVerdict(js, s, size);
      var (code, t) := Step(js, s, size);
      if code >= 0 {
        RunVerdict(js, t, size);
      }
    }
  }

  // ----- running out of tokens and going on

  /** Where a run ran out of tokens, a run with more of them goes on as if it had had them from the start. */
  lemma {:induction false} Resume(js: string, s: State, size: nat, more: nat)
    requires WellFormed(js, s) && |s.ts| <= size <= more
    ensures var (r, t) := Run(js, s, size);
      WellFormed(js, t) && Run(js, s, more) == if r == ERROR_NOMEM then Run(js, t, more) else (r, t)
    ensures Run(js, s, size).0 == ERROR_NOMEM ==> |Run(js, s, size).1.ts| == size
    decreases |js| - s.pos
  {
    if !Ended(js, s.pos) {
      var (code, t) := Step(js, s, size);
      if code >= 0 {
        Resume(js, t, size, more);
      }
    }
  }

  /** Counting first: that many tokens suffice, fewer do not, and a success uses all of them. */
  lemma CountFirst(js: string, size: nat)
    requires Tally(js, 0, 0) >= 0
    ensures var r := Run(js, State(0, [], -1, []), size).0;
      && (size >= Tally(js, 0, 0) ==> r != ERROR_NOMEM)
      && (r >= 0 ==> r == Tally(js, 0, 0) <= size)
  {
    RunVerdict(js, State(0, [], -1, []), size);
    TallySuffices(js, 0, [], size, 0);
    if Verdict(js, 0, [], size, 0) >= 0 {
      TallyAgrees(js, 0, [], size, 0);
    }
  }
}
