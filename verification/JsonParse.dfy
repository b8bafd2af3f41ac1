/** Parsing the text of a JSON tree gives the tokens of the tree. */
module JsonParse {
  import opened JsonScan
  import opened JsonTokens
  import opened JsonRun
  import opened JsonTree

  /** The text t stands in js from p on. */
  predicate At(js: string, p: nat, t: string)
  {
    p + |t| <= |js| && js[p..p + |t|] == t
  }

  lemma AtSplit(js: string, p: nat, a: string, b: string)
    requires At(js, p, a + b)
    ensures At(js, p, a) && At(js, p + |a|, b)
  {
    assert (a + b)[..|a|] == a && (a + b)[|a|..] == b;
    assert js[p..p + |a|] == js[p..p + |a + b|][..|a|];
    assert js[p + |a|..p + |a| + |b|] == js[p..p + |a + b|][|a|..];
  }

  lemma AtChar(js: string, p: nat, t: string, i: nat)
    requires At(js, p, t) && i < |t|
    ensures p + i < |js| && js[p + i] == t[i]
  {
    assert js[p..p + |t|][i] == js[p + i];
  }

  lemma AtRest(js: string, p: nat, t: string, n: nat)
    requires At(js, p, t) && n <= |t|
    ensures At(js, p + n, t[n..])
  {
    assert js[p + n..p + n + |t[n..]|] == js[p..p + |t|][n..];
  }

  // ----- lexemes

  /** Behind the body of a string stands the quote that ends it. */
  lemma {:induction false} BodyEnds(js: string, p: nat, b: string)
    requires At(js, p, b) && Body(b) && p + |b| < |js| && js[p + |b|] == '\"'
    ensures StringEnd(js, p) == Closed(p + |b|)
    decreases |b|
  {
    if b != "" {
      AtChar(js, p, b, 0);
      if b[0] != '\\' {
        AtRest(js, p, b, 1);
        BodyEnds(js, p + 1, b[1..]);
      } else {
        AtChar(js, p, b, 1);
        if |b| >= 2 && b[1] in "\"/\\bfrnt" && Body(b[2..]) {
          AtRest(js, p, b, 2);
          BodyEnds(js, p + 2, b[2..]);
        } else {
          FourDigits(js, p, b);
          AtRest(js, p, b, 6);
          BodyEnds(js, p + 6, b[6..]);
        }
      }
    }
  }

  lemma FourDigits(js: string, p: nat, b: string)
    requires At(js, p, b) && |b| >= 6 && HexDigits(b[2..6])
    ensures HexEnd(js, p + 2, 4) == Past(p + 6)
  {
    HexAt(b, 2);
    HexAt(b, 3);
    HexAt(b, 4);
    HexAt(b, 5);
    hide HexDigits;
    AtChar(js, p, b, 2);
    AtChar(js, p, b, 3);
    AtChar(js, p, b, 4);
    AtChar(js, p, b, 5);
    assert HexEnd(js, p + 6, 0) == Past(p + 6);
    assert HexEnd(js, p + 5, 1) == Past(p + 6);
    assert HexEnd(js, p + 4, 2) == Past(p + 6);
    assert HexEnd(js, p + 3, 3) == Past(p + 6);
  }

  lemma HexAt(b: string, i: nat)
    requires |b| >= 6 && HexDigits(b[2..6]) && 2 <= i < 6
    ensures IsHex(b[i])
  {
    assert b[2..6][i - 2] == b[i];
    IsHexDigit(b[i]);
  }

  lemma {:induction false} WordEnds(js: string, p: nat, t: string, i: nat)
    requires At(js, p, t) && WordText(t) && i <= |t| && Limit(js, p + |t|)
    ensures PrimitiveEnd(js, p + i) == Closed(p + |t|)
    decreases |t| - i
  {
    if i < |t| {
      AtChar(js, p, t, i);
      WordEnds(js, p, t, i + 1);
    }
  }

  // ----- what one lexeme does to a run

  /** n more children for the superior token. */
  function BumpBy(ts: seq<Token>, i: int, n: nat): (r: seq<Token>)
    requires -1 <= i < |ts|
    ensures |r| == |ts|
  {
    if i == -1 then ts else ts[i := ts[i].(size := ts[i].size + n)]
  }

  /** New tokens, n of them directly under the superior one. */
  function Put(s: State, pos: nat, n: nat, ts: seq<Token>, super: int, parents: seq<int>): (t: State)
    requires -1 <= s.super < |s.ts|
    ensures t.super == super && t.pos == pos && |t.ts| == |s.ts| + |ts|
  {
    State(pos, BumpBy(s.ts, s.super, n) + ts, super, s.parents + parents)
  }

  lemma AddedPut(s: State, t: Token, pos: nat, super: int)
    requires -1 <= s.super < |s.ts|
    ensures Added(s, t, pos, super) == Put(s, pos, 1, [t], super, [s.super])
  {
    BumpAppend(s.ts, t, s.super);
  }

  /** A run from s comes to t on its way. */
  ghost predicate Leads(js: string, s: State, t: State, size: nat)
  {
    WellFormed(js, s) && WellFormed(js, t) && Run(js, s, size) == Run(js, t, size)
  }

  lemma LeadsOn(js: string, s: State, t: State, u: State, size: nat)
    requires Leads(js, s, t, size) && Leads(js, t, u, size)
    ensures Leads(js, s, u, size)
  {
    hide Run;
  }

  lemma LeadsTo(js: string, s: State, t: State, size: nat)
    requires Leads(js, s, t, size)
    ensures WellFormed(js, t)
  {
    hide Run;
  }

  lemma {:induction false} BlankRun(js: string, s: State, t: string, size: nat)
    requires WellFormed(js, s) && At(js, s.pos, t) && Blank(t)
    ensures Leads(js, s, s.(pos := s.pos + |t|), size)
    decreases |t|
  {
    if t == "" {
      assert s.(pos := s.pos + 0) == s;
    } else {
      AtChar(js, s.pos, t, 0);
      AtRest(js, s.pos, t, 1);
      var u := s.(pos := s.pos + 1);
      assert Step(js, s, size) == (0, u);
      BlankRun(js, u, t[1..], size);
      assert u.(pos := u.pos + |t[1..]|) == s.(pos := s.pos + |t|);
    }
  }

  lemma OpensRun(js: string, s: State, kind: Kind, size: nat)
    requires WellFormed(js, s) && s.pos < |js| && (kind == Object || kind == Array) && js[s.pos] == Bracket(kind).0
    requires |s.ts| < size
    ensures var t := Put(s, s.pos + 1, 1, [Token(kind, s.pos, -1, 0)], |s.ts|, [s.super]);
      Leads(js, s, t, size)
  {
    AddedPut(s, Token(kind, s.pos, -1, 0), s.pos + 1, |s.ts|);
    hide Put, Added;
    assert Step(js, s, size).0 == 0;
  }

  lemma QuotedLex(js: string, p: nat, b: string)
    requires At(js, p, "\"" + b + "\"") && Body(b)
    ensures !Ended(js, p) && Lex(js, p) == Leaf(String, p + 1, p + 1 + |b|, p + |b| + 2)
  {
    hide StringEnd, PrimitiveEnd, Body, At, Lex;
    AtSplit(js, p, "\"" + b, "\"");
    AtSplit(js, p, "\"", b);
    AtChar(js, p, "\"", 0);
    AtChar(js, p + 1 + |b|, "\"", 0);
    BodyEnds(js, p + 1, b);
    QuoteLex(js, p, p + 1 + |b|);
  }

  lemma QuoteLex(js: string, p: nat, e: nat)
    requires p < |js| && js[p] == '\"' && StringEnd(js, p + 1) == Closed(e)
    ensures Lex(js, p) == Leaf(String, p + 1, e, e + 1)
  {
    hide StringEnd, PrimitiveEnd;
  }

  lemma WordLex(js: string, p: nat, w: string)
    requires At(js, p, w) && WordText(w) && Limit(js, p + |w|)
    ensures !Ended(js, p) && Lex(js, p) == Leaf(Primitive, p, p + |w|, p + |w|)
  {
    AtChar(js, p, w, 0);
    WordEnds(js, p, w, 0);
    hide StringEnd, PrimitiveEnd, At;
  }

  lemma LeafRun(js: string, s: State, size: nat)
    requires WellFormed(js, s) && !Ended(js, s.pos) && Lex(js, s.pos).Leaf? && |s.ts| < size
    ensures var Leaf(kind, start, end, next) := Lex(js, s.pos);
      Leads(js, s, Put(s, next, 1, [Token(kind, start, end, 0)], s.super, [s.super]), size)
  {
    hide Lex, Put, Added;
    var Leaf(kind, start, end, next) := Lex(js, s.pos);
    AddedPut(s, Token(kind, start, end, 0), next, s.super);
    assert Step(js, s, size).0 == 0;
  }

  lemma ClosesRun(js: string, s: State, kind: Kind, b: nat, size: nat)
    requires WellFormed(js, s) && s.pos < |js| && (kind == Object || kind == Array) && js[s.pos] == Bracket(kind).1
    requires IsLast(s.ts, b) && s.ts[b].kind == kind
    ensures Leads(js, s, Ending(s, b), size)
  {
    InnermostIs(s.ts, b);
    hide Innermost, IsLast;
    assert Step(js, s, size) == (0, Ending(s, b));
  }

  lemma ColonRun(js: string, s: State, size: nat)
    requires WellFormed(js, s) && s.pos < |js| && js[s.pos] == ':'
    ensures var t := s.(pos := s.pos + 1, super := |s.ts| - 1);
      Leads(js, s, t, size)
  {
    hide Innermost;
    assert Step(js, s, size).0 == 0;
  }

  lemma {:induction false} ContainerIs(ts: seq<Token>, i: int)
    requires IsLast(ts, i) && i >= 0 && ts[i].kind in {Object, Array}
    ensures InnermostContainer(ts) == i
  {
    if i < |ts| - 1 {
      ContainerIs(ts[..|ts| - 1], i);
    }
  }

  /** Behind a comma the innermost container is superior, whether it was or a key was. */
  lemma CommaRun(js: string, s: State, b: nat, size: nat)
    requires WellFormed(js, s) && s.pos < |js| && js[s.pos] == ','
    requires IsLast(s.ts, b) && s.ts[b].kind in {Object, Array}
    requires s.super == b || (s.super != -1 && s.ts[s.super].kind !in {Object, Array})
    ensures var t := s.(pos := s.pos + 1, super := b);
      Leads(js, s, t, size)
  {
    ContainerIs(s.ts, b);
    hide Innermost, InnermostContainer, IsLast;
    assert Step(js, s, size).0 == 0;
  }

  // ----- states after runs of tokens

  lemma {:induction false} InnermostKept(ts: seq<Token>, us: seq<Token>, more: seq<Token>)
    requires |us| == |ts| && AllClosed(more)
    requires forall i :: 0 <= i < |ts| ==> us[i].start == ts[i].start && us[i].end == ts[i].end
    ensures Innermost(us + more) == Innermost(ts)
  {
    var i := Innermost(ts);
    InnermostOpen(ts);
    assert IsLast(us + more, i);
    hide Innermost;
    InnermostIs(us + more, i);
  }

  lemma LastKept(ts: seq<Token>, b: int, i: int, n: nat, more: seq<Token>)
    requires IsLast(ts, b) && -1 <= i < |ts| && AllClosed(more)
    ensures IsLast(BumpBy(ts, i, n) + more, b)
    ensures b >= 0 ==> (BumpBy(ts, i, n) + more)[b].kind == ts[b].kind
  {
  }

  /** Tokens put under the same superior one after the other. */
  lemma PutPut(s: State, p: nat, m: nat, a: seq<Token>, ps: seq<int>, q: nat, r: nat, n: nat, c: seq<Token>,
               cs: seq<int>, super: int)
    requires -1 <= s.super < |s.ts|
    ensures Put(Put(s, p, m, a, s.super, ps).(pos := q), r, n, c, super, cs)
         == Put(s, r, m + n, a + c, super, ps + cs)
  {
    var t := Put(s, p, m, a, s.super, ps);
    assert BumpBy(BumpBy(s.ts, s.super, m) + a, s.super, n) == BumpBy(s.ts, s.super, m + n) + a;
    assert (BumpBy(s.ts, s.super, m + n) + a) + c == BumpBy(s.ts, s.super, m + n) + (a + c);
    assert (s.parents + ps) + cs == s.parents + (ps + cs);
  }

  /** The state behind a value: a container leaves the one around it superior. */
  function Behind(s: State, v: Json): State
    requires -1 <= s.super < |s.ts|
  {
    Put(s, s.pos + |Text(v)|, 1, Tokens(v, s.pos), if v.Word? || v.Quoted? then s.super else Innermost(s.ts),
        Under(v, s.super, |s.ts|))
  }

  function BehindPadded(s: State, d: Padded): State
    requires -1 <= s.super < |s.ts|
  {
    Put(s, s.pos + |PaddedText(d)|, 1, PaddedTokens(d, s.pos),
        if d.value.Word? || d.value.Quoted? then s.super else Innermost(s.ts), PaddedUnder(d, s.super, |s.ts|))
  }

  /** The state in front of the bracket that closes the elements or members. */
  function Filled(s: State, pos: nat, n: nat, ts: seq<Token>, ps: seq<int>): State
    requires 0 <= s.super < |s.ts|
  {
    Put(s, pos, n, ts, s.super, ps)
  }

  /** A container with its contents, once it is closed. */
  lemma ContainerPut(s: State, kind: Kind, q: nat, n: nat, ts: seq<Token>, ps: seq<int>)
    requires -1 <= s.super < |s.ts| && AllClosed(ts)
    ensures var o := Put(s, s.pos + 1, 1, [Token(kind, s.pos, -1, 0)], |s.ts|, [s.super]);
      Ending(Filled(o, q, n, ts, ps), |s.ts|)
      == Put(s, q + 1, 1, [Token(kind, s.pos, q + 1, n)] + ts, Innermost(s.ts), [s.super] + ps)
  {
    var o := Put(s, s.pos + 1, 1, [Token(kind, s.pos, -1, 0)], |s.ts|, [s.super]);
    var f := Filled(o, q, n, ts, ps);
    var u := [Token(kind, s.pos, q + 1, n)] + ts;
    var us := BumpBy(s.ts, s.super, 1) + u;
    assert f.ts[|s.ts|] == Token(kind, s.pos, -1, n);
    assert f.ts[|s.ts| := f.ts[|s.ts|].(end := q + 1)] == us;
    InnermostKept(s.ts, BumpBy(s.ts, s.super, 1), u);
    assert (s.parents + [s.super]) + ps == s.parents + ([s.super] + ps);
  }

  // ----- whole values

  lemma PaddedState(s: State, d: Padded)
    requires -1 <= s.super < |s.ts|
    ensures var t := Behind(s.(pos := s.pos + |d.before|), d.value);
      t.pos == s.pos + |d.before| + |Text(d.value)| && t.(pos := t.pos + |d.after|) == BehindPadded(s, d)
  {
    hide Tokens, Text, Under, Innermost, BumpBy;
  }

  lemma PaddedFacts(d: Padded)
    ensures PaddedText(d) == d.before + (Text(d.value) + d.after) && PaddedCount(d) == Count(d.value)
    ensures ProperPadded(d) ==> Blank(d.before) && Blank(d.after) && Proper(d.value)
  {
  }

  lemma PaddedRun(js: string, s: State, d: Padded, size: nat)
    requires WellFormed(js, s) && At(js, s.pos, PaddedText(d)) && ProperPadded(d)
    requires Limit(js, s.pos + |PaddedText(d)|) && |s.ts| + PaddedCount(d) <= size
    ensures Leads(js, s, BehindPadded(s, d), size)
    decreases d, 0
  {
    hide Leads, Text, Count, Proper, ProperPadded, Behind, BehindPadded, PaddedText, PaddedCount, Blank, Limit, At;
    var text := Text(d.value);
    var s1 := s.(pos := s.pos + |d.before|);
    var s2 := Behind(s1, d.value);
    PaddedFacts(d);
    PaddedState(s, d);
    AtSplit(js, s.pos, d.before, text + d.after);
    AtSplit(js, s.pos + |d.before|, text, d.after);
    BlankRun(js, s, d.before, size);
    LeadsTo(js, s, s1, size);
    LimitBefore(js, s1.pos + |text|, d.after);
    ValueRun(js, s1, d.value, size);
    LeadsTo(js, s1, s2, size);
    BlankRun(js, s2, d.after, size);
    LeadsOn(js, s, s1, s2, size);
    LeadsOn(js, s, s2, BehindPadded(s, d), size);
  }

  lemma LimitBefore(js: string, p: nat, t: string)
    requires At(js, p, t) && Blank(t) && Limit(js, p + |t|)
    ensures Limit(js, p)
  {
    if t != "" {
      AtChar(js, p, t, 0);
    }
  }

  lemma ValueRun(js: string, s: State, v: Json, size: nat)
    requires WellFormed(js, s) && At(js, s.pos, Text(v)) && Proper(v)
    requires Limit(js, s.pos + |Text(v)|) && |s.ts| + Count(v) <= size
    ensures Leads(js, s, Behind(s, v), size)
    decreases v, 1
  {
    hide Leads, Lex, At;
    match v
    case Word(t) =>
      WordLex(js, s.pos, t);
      LeafRun(js, s, size);
    case Quoted(b) =>
      QuotedLex(js, s.pos, b);
      LeafRun(js, s, size);
    case ArrayOf(_, _) =>
      hide Behind, Text;
      ArrayRun(js, s, v, size);
    case ObjectOf(_, _) =>
      hide Behind, Text;
      ObjectRun(js, s, v, size);
  }

  /** The state in a container that has just been opened. */
  function Opened(s: State, kind: Kind): (o: State)
    requires -1 <= s.super < |s.ts|
    ensures o.super == |s.ts| && o.pos == s.pos + 1 && |o.ts| == |s.ts| + 1
  {
    Put(s, s.pos + 1, 1, [Token(kind, s.pos, -1, 0)], |s.ts|, [s.super])
  }

  lemma OpenedLast(s: State, kind: Kind)
    requires -1 <= s.super < |s.ts|
    ensures IsLast(Opened(s, kind).ts, |s.ts|) && Opened(s, kind).ts[|s.ts|].kind == kind
  {
  }

  lemma ArrayFacts(v: Json, p: nat, up: int, n: nat)
    requires v.ArrayOf?
    ensures var es := v.elements; var rest := if es == [] then v.inside + "]" else Elements(es);
      && Text(v) == "[" + rest && Count(v) == 1 + ElementCount(es)
      && Tokens(v, p) == [Token(Array, p, p + 1 + |rest|, |es|)] + ElementTokens(es, p + 1)
      && Under(v, up, n) == [up] + ElementsUnder(es, n, n + 1)
      && (Proper(v) ==> Blank(v.inside) && ProperElements(es))
  {
    hide Elements, ElementTokens, ElementsUnder, ElementCount, Blank, ProperElements;
  }

  lemma ArrayState(s: State, v: Json)
    requires -1 <= s.super < |s.ts| && v.ArrayOf?
    ensures var o, es := Opened(s, Array), v.elements;
      Behind(s, v) == Ending(if es == [] then Filled(o, o.pos + |v.inside|, 0, [], []) else BehindElements(o, es),
                             o.super)
  {
    hide Innermost, Elements, ElementTokens, ElementsUnder, Text, Tokens, Under, Put;
    var o, es := Opened(s, Array), v.elements;
    var rest := if es == [] then v.inside + "]" else Elements(es);
    ArrayFacts(v, s.pos, s.super, |s.ts|);
    ElementsClosed(es, o.pos);
    NoElements(o.pos, |s.ts|, |s.ts| + 1);
    hide AllClosed;
    ContainerPut(s, Array, o.pos + |rest| - 1, |es|, ElementTokens(es, o.pos), ElementsUnder(es, |s.ts|, |s.ts| + 1));
  }

  lemma NoElements(p: nat, up: int, n: nat)
    ensures ElementTokens([], p) == [] && ElementsUnder([], up, n) == []
    ensures MemberTokens([], p) == [] && MembersUnder([], up, n) == []
  {
  }

  lemma ArrayRun(js: string, s: State, v: Json, size: nat)
    requires WellFormed(js, s) && v.ArrayOf? && At(js, s.pos, Text(v)) && Proper(v)
    requires |s.ts| + Count(v) <= size
    ensures Leads(js, s, Behind(s, v), size)
    decreases v, 0
  {
    hide Leads, Elements, Text, Blank, ProperElements, Proper, Count, ElementCount, IsLast, At, Behind, Filled,
      BehindElements, Tokens, ElementTokens, Under, ElementsUnder;
    var es := v.elements;
    var rest := if es == [] then v.inside + "]" else Elements(es);
    ArrayFacts(v, s.pos, s.super, |s.ts|);
    AtSplit(js, s.pos, "[", rest);
    AtChar(js, s.pos, "[", 0);
    ArrayState(s, v);
    OpenedLast(s, Array);
    OpensRun(js, s, Array, size);
    var o := Opened(s, Array);
    LeadsTo(js, s, o, size);
    hide Opened, Put;
    if es == [] {
      EmptyRun(js, o, Array, v.inside, size);
    } else {
      ElementsRun(js, o, es, size);
    }
    LeadsOn(js, s, o, Behind(s, v), size);
  }

  lemma EmptyRun(js: string, s: State, kind: Kind, inside: string, size: nat)
    requires WellFormed(js, s) && (kind == Object || kind == Array) && s.super >= 0
    requires At(js, s.pos, inside + [Bracket(kind).1]) && Blank(inside)
    requires IsLast(s.ts, s.super) && s.ts[s.super].kind == kind
    ensures var e := Ending(Filled(s, s.pos + |inside|, 0, [], []), s.super);
      Leads(js, s, e, size)
  {
    AtSplit(js, s.pos, inside, [Bracket(kind).1]);
    AtChar(js, s.pos + |inside|, [Bracket(kind).1], 0);
    var t := s.(pos := s.pos + |inside|);
    assert t.ts == BumpBy(s.ts, s.super, 0) + [] && t.parents == s.parents + [];
    assert t == Filled(s, s.pos + |inside|, 0, [], []);
    hide Leads, IsLast, Filled, At, Bracket;
    BlankRun(js, s, inside, size);
    LeadsTo(js, s, t, size);
    ClosesRun(js, t, kind, s.super, size);
    LeadsOn(js, s, t, Ending(t, s.super), size);
  }

  /** The state behind the last element. */
  function BehindElements(s: State, es: seq<Padded>): (t: State)
    requires 0 <= s.super < |s.ts| && es != []
    ensures |s.ts| <= |t.ts|
  {
    Filled(s, s.pos + |Elements(es)| - 1, |es|, ElementTokens(es, s.pos), ElementsUnder(es, s.super, |s.ts|))
  }

  lemma LastElement(s: State, es: seq<Padded>)
    requires 0 <= s.super < |s.ts| && |es| == 1 && BehindPadded(s, es[0]).super == s.super
    ensures BehindElements(s, es) == BehindPadded(s, es[0])
  {
    assert es[1..] == [];
    assert ElementTokens(es, s.pos) == PaddedTokens(es[0], s.pos) + [];
    assert ElementsUnder(es, s.super, |s.ts|) == PaddedUnder(es[0], s.super, |s.ts|) + [];
  }

  lemma NextElement(s: State, es: seq<Padded>)
    requires 0 <= s.super < |s.ts| && |es| > 1 && BehindPadded(s, es[0]).super == s.super
    ensures var t := BehindPadded(s, es[0]); BehindElements(t.(pos := t.pos + 1), es[1..]) == BehindElements(s, es)
  {
    var t := BehindPadded(s, es[0]);
    var p := t.pos + 1;
    hide PaddedTokens, PaddedUnder, PaddedText, Put;
    PutPut(s, t.pos, 1, PaddedTokens(es[0], s.pos), PaddedUnder(es[0], s.super, |s.ts|), p,
           s.pos + |Elements(es)| - 1, |es| - 1, ElementTokens(es[1..], p), ElementsUnder(es[1..], s.super, |t.ts|),
           s.super);
  }

  lemma PaddedKeeps(s: State, d: Padded, b: nat)
    requires -1 <= s.super < |s.ts| && IsLast(s.ts, b)
    ensures IsLast(BehindPadded(s, d).ts, b) && BehindPadded(s, d).ts[b].kind == s.ts[b].kind
    ensures s.super == b ==> BehindPadded(s, d).super == b
  {
    PaddedClosed(d, s.pos);
    hide PaddedTokens, PaddedUnder, PaddedText;
    LastKept(s.ts, b, s.super, 1, PaddedTokens(d, s.pos));
    hide IsLast, Innermost, BumpBy;
    InnermostIs(s.ts, b);
  }

  lemma ElementsFacts(es: seq<Padded>)
    requires es != []
    ensures Elements(es) == PaddedText(es[0]) + if |es| == 1 then "]" else "," + Elements(es[1..])
    ensures ElementCount(es) == PaddedCount(es[0]) + ElementCount(es[1..])
    ensures ProperElements(es) ==> ProperPadded(es[0]) && ProperElements(es[1..])
  {
    hide PaddedText, PaddedCount, ProperPadded;
  }

  lemma BehindPaddedFacts(s: State, d: Padded)
    requires -1 <= s.super < |s.ts|
    ensures BehindPadded(s, d).pos == s.pos + |PaddedText(d)|
    ensures |BehindPadded(s, d).ts| == |s.ts| + PaddedCount(d)
  {
    hide Put, PaddedText, PaddedCount, Innermost, PaddedUnder;
  }

  lemma LimitAt(js: string, p: nat)
    requires p < |js| && js[p] in ",]}"
    ensures Limit(js, p)
  {
  }

  /** What follows the first element. */
  function AfterElement(es: seq<Padded>): string
    requires es != []
  {
    if |es| == 1 then "]" else "," + Elements(es[1..])
  }

  lemma ElementAt(js: string, p: nat, es: seq<Padded>)
    requires es != [] && At(js, p, Elements(es))
    ensures At(js, p, PaddedText(es[0])) && At(js, p + |PaddedText(es[0])|, AfterElement(es))
    ensures Limit(js, p + |PaddedText(es[0])|)
  {
    hide Elements, PaddedText, At, Limit, PaddedCount, ElementCount, ProperPadded, ProperElements;
    var q := p + |PaddedText(es[0])|;
    ElementsFacts(es);
    AtSplit(js, p, PaddedText(es[0]), AfterElement(es));
    AtChar(js, q, AfterElement(es), 0);
    LimitAt(js, q);
  }

  lemma ElementRun(js: string, s: State, es: seq<Padded>, size: nat)
    requires es != [] && WellFormed(js, s) && s.super >= 0 && At(js, s.pos, Elements(es)) && ProperElements(es)
    requires IsLast(s.ts, s.super) && s.ts[s.super].kind == Array && |s.ts| + ElementCount(es) <= size
    ensures var t := BehindPadded(s, es[0]);
      && Leads(js, s, t, size) && WellFormed(js, t) && t.super == s.super && IsLast(t.ts, s.super)
      && t.ts[s.super].kind == Array && |t.ts| == |s.ts| + PaddedCount(es[0]) && At(js, t.pos, AfterElement(es))
    decreases es, 0
  {
    hide Leads, Innermost, IsLast, Elements, ProperPadded, ProperElements, ElementCount, PaddedCount, PaddedText,
      BehindPadded, At, Limit;
    hide AfterElement;
    var d := es[0];
    ElementsFacts(es);
    BehindPaddedFacts(s, d);
    ElementAt(js, s.pos, es);
    PaddedRun(js, s, d, size);
    PaddedKeeps(s, d, s.super);
    LeadsTo(js, s, BehindPadded(s, d), size);
  }

  lemma ElementEnds(js: string, p: nat, es: seq<Padded>)
    requires es != [] && At(js, p, AfterElement(es))
    ensures p < |js| && js[p] == if |es| == 1 then ']' else ','
    ensures |es| > 1 ==> At(js, p + 1, Elements(es[1..]))
  {
    hide Elements, At;
    AtChar(js, p, AfterElement(es), 0);
    if |es| > 1 {
      AtSplit(js, p, ",", Elements(es[1..]));
    }
  }

  /** Elements, from the first to the bracket behind the last. */
  lemma ElementsRun(js: string, s: State, es: seq<Padded>, size: nat)
    requires es != [] && WellFormed(js, s) && s.super >= 0 && At(js, s.pos, Elements(es)) && ProperElements(es)
    requires IsLast(s.ts, s.super) && s.ts[s.super].kind == Array && |s.ts| + ElementCount(es) <= size
    ensures var e := Ending(BehindElements(s, es), s.super);
      Leads(js, s, e, size)
    decreases es, 1
  {
    hide Leads, Innermost, IsLast, BehindElements, Elements, ProperPadded, ProperElements, ElementCount, PaddedCount,
      PaddedText, BehindPadded, At, Limit, AfterElement;
    var b, s1 := s.super, BehindPadded(s, es[0]);
    ElementsFacts(es);
    ElementRun(js, s, es, size);
    ElementEnds(js, s1.pos, es);
    if |es| == 1 {
      LastElement(s, es);
      ClosesRun(js, s1, Array, b, size);
    } else {
      CommaRun(js, s1, b, size);
      NextElement(s, es);
      var s2 := s1.(pos := s1.pos + 1);
      LeadsTo(js, s1, s2, size);
      ElementsRun(js, s2, es[1..], size);
      LeadsOn(js, s1, s2, Ending(BehindElements(s, es), b), size);
    }
    LeadsOn(js, s, s1, Ending(BehindElements(s, es), b), size);
  }

  /** The state behind the colon of a member: the key is the last token and superior. */
  function BehindLabel(s: State, m: Member): State
    requires -1 <= s.super < |s.ts|
  {
    Put(s, s.pos + |Label(m)|, 1, [KeyToken(m, s.pos).(size := 0)], |s.ts|, [s.super])
  }

  lemma LabelFacts(s: State, m: Member)
    requires -1 <= s.super < |s.ts|
    ensures var quoted := "\"" + m.key + "\"";
      var s1 := s.(pos := s.pos + |m.before|);
      var s2 := Put(s1, s1.pos + |quoted|, 1, [Token(String, s1.pos + 1, s1.pos + 1 + |m.key|, 0)], s.super, [s.super]);
      && s2.(pos := s2.pos + |m.gap| + 1, super := |s2.ts| - 1) == BehindLabel(s, m)
      && Label(m) == m.before + (quoted + (m.gap + ":"))
      && (ProperMember(m) ==> Blank(m.before) && Body(m.key) && Blank(m.gap))
  {
    hide BumpBy, Blank, Body, ProperPadded;
  }

  lemma LabelRun(js: string, s: State, m: Member, size: nat)
    requires WellFormed(js, s) && At(js, s.pos, Label(m)) && ProperMember(m) && |s.ts| < size
    ensures Leads(js, s, BehindLabel(s, m), size)
  {
    hide Leads, ProperMember, Label, Blank, Body, BehindLabel, Put, At, Lex;
    var quoted := "\"" + m.key + "\"";
    var s1 := s.(pos := s.pos + |m.before|);
    var s2 := Put(s1, s1.pos + |quoted|, 1, [Token(String, s1.pos + 1, s1.pos + 1 + |m.key|, 0)], s.super, [s.super]);
    var s3 := s2.(pos := s2.pos + |m.gap|);
    LabelFacts(s, m);
    AtSplit(js, s.pos, m.before, quoted + (m.gap + ":"));
    AtSplit(js, s1.pos, quoted, m.gap + ":");
    AtSplit(js, s2.pos, m.gap, ":");
    AtChar(js, s3.pos, ":", 0);
    BlankRun(js, s, m.before, size);
    LeadsTo(js, s, s1, size);
    QuotedLex(js, s1.pos, m.key);
    LeafRun(js, s1, size);
    LeadsTo(js, s1, s2, size);
    BlankRun(js, s2, m.gap, size);
    LeadsTo(js, s2, s3, size);
    ColonRun(js, s3, size);
    LeadsOn(js, s, s1, s2, size);
    LeadsOn(js, s, s2, s3, size);
    LeadsOn(js, s, s3, BehindLabel(s, m), size);
  }

  /** A value put under its key. */
  lemma KeyAndValue(s: State, m: Member, q: nat, ts: seq<Token>, ps: seq<int>)
    requires -1 <= s.super < |s.ts|
    ensures forall r: nat, super: int ::
      Put(BehindLabel(s, m), r, 1, ts, super, ps) == Put(s, r, 1, [KeyToken(m, s.pos)] + ts, super, [s.super] + ps)
  {
    var s1 := BehindLabel(s, m);
    var k := KeyToken(m, s.pos);
    assert s1.ts[|s.ts| := k] == BumpBy(s.ts, s.super, 1) + [k];
    assert (BumpBy(s.ts, s.super, 1) + [k]) + ts == BumpBy(s.ts, s.super, 1) + ([k] + ts);
    assert (s.parents + [s.super]) + ps == s.parents + ([s.super] + ps);
  }

  /** The state behind a member; a value that is not a container leaves its key superior. */
  function BehindMember(s: State, m: Member): State
    requires 0 <= s.super < |s.ts|
  {
    var q := s.pos + |Label(m)|;
    Put(s, q + |MemberValue(m)|, 1, [KeyToken(m, s.pos)] + ValueTokens(m, q),
        if m.value.value.Word? || m.value.value.Quoted? then |s.ts| else s.super,
        [s.super] + ValueUnder(m, |s.ts|, |s.ts| + 1))
  }

  lemma LabelKeeps(s: State, m: Member, b: nat)
    requires s.super == b < |s.ts| && IsLast(s.ts, b)
    ensures IsLast(BehindLabel(s, m).ts, b)
  {
    LastKept(s.ts, b, b, 1, [KeyToken(m, s.pos).(size := 0)]);
  }

  lemma MemberKeeps(s: State, m: Member, b: nat)
    requires s.super == b < |s.ts| && IsLast(s.ts, b)
    ensures var t := BehindMember(s, m);
      IsLast(t.ts, b) && t.ts[b].kind == s.ts[b].kind && t.ts[|s.ts|].kind == String
  {
    var q := s.pos + |Label(m)|;
    ValueClosed(m, q);
    hide ValueTokens, ValueUnder, MemberValue, Label;
    LastKept(s.ts, b, b, 1, [KeyToken(m, s.pos)] + ValueTokens(m, q));
  }

  lemma MemberFacts(m: Member)
    ensures MemberValue(m) == PaddedText(m.value) && ValueCount(m) == PaddedCount(m.value)
    ensures ProperMember(m) ==> ProperPadded(m.value)
  {
  }

  lemma MemberState(s: State, m: Member)
    requires 0 <= s.super < |s.ts| && IsLast(BehindLabel(s, m).ts, s.super)
    ensures var s1 := BehindLabel(s, m);
      && s1.pos == s.pos + |Label(m)| && |s1.ts| == |s.ts| + 1 && s1.super == |s.ts|
      && BehindPadded(s1, m.value) == BehindMember(s, m)
  {
    var q, s1 := s.pos + |Label(m)|, BehindLabel(s, m);
    hide IsLast, Innermost, PaddedTokens, PaddedUnder, PaddedText, Label, KeyToken;
    InnermostIs(s1.ts, s.super);
    KeyAndValue(s, m, q, PaddedTokens(m.value, q), PaddedUnder(m.value, |s.ts|, |s.ts| + 1));
    hide BehindLabel, Put;
  }

  /** A member up to the end of its value. */
  lemma MemberRun(js: string, s: State, m: Member, size: nat)
    requires WellFormed(js, s) && s.super >= 0 && At(js, s.pos, Label(m) + MemberValue(m)) && ProperMember(m)
    requires IsLast(s.ts, s.super) && |s.ts| + 1 + ValueCount(m) <= size
    requires Limit(js, s.pos + |Label(m)| + |MemberValue(m)|)
    ensures Leads(js, s, BehindMember(s, m), size)
    decreases m
  {
    hide Leads, Innermost, IsLast, ProperMember, ProperPadded, Limit, PaddedText, PaddedCount, Label, KeyToken, At,
      BehindLabel, BehindMember, BehindPadded, MemberValue, ValueCount;
    var s1 := BehindLabel(s, m);
    MemberFacts(m);
    AtSplit(js, s.pos, Label(m), MemberValue(m));
    LabelRun(js, s, m, size);
    LabelKeeps(s, m, s.super);
    MemberState(s, m);
    LeadsTo(js, s, s1, size);
    PaddedRun(js, s1, m.value, size);
    LeadsOn(js, s, s1, BehindMember(s, m), size);
  }

  /** The state behind the last member, but for its superior token. */
  function BehindMembers(s: State, ms: seq<Member>): (t: State)
    requires 0 <= s.super < |s.ts| && ms != []
    ensures |s.ts| <= |t.ts|
  {
    Filled(s, s.pos + |Members(ms)| - 1, |ms|, MemberTokens(ms, s.pos), MembersUnder(ms, s.super, |s.ts|))
  }

  lemma LastMember(s: State, ms: seq<Member>)
    requires 0 <= s.super < |s.ts| && |ms| == 1
    ensures BehindMembers(s, ms) == BehindMember(s, ms[0]).(super := s.super)
  {
    var m, q := ms[0], s.pos + |Label(ms[0])|;
    hide ValueTokens, ValueUnder, MemberValue, Label;
    assert ms[1..] == [];
    assert MemberTokens(ms, s.pos) == [KeyToken(m, s.pos)] + (ValueTokens(m, q) + []);
    assert MembersUnder(ms, s.super, |s.ts|) == [s.super] + (ValueUnder(m, |s.ts|, |s.ts| + 1) + []);
  }

  lemma MembersSteps(ms: seq<Member>, p: nat, up: int, n: nat)
    requires ms != []
    ensures var m, q := ms[0], p + |Label(ms[0])|;
      && MemberTokens(ms, p)
         == ([KeyToken(m, p)] + ValueTokens(m, q)) + MemberTokens(ms[1..], q + |MemberValue(m)| + 1)
      && MembersUnder(ms, up, n)
         == ([up] + ValueUnder(m, n, n + 1)) + MembersUnder(ms[1..], up, n + 1 + ValueCount(m))
  {
    hide ValueTokens, ValueUnder, MemberValue, Label, ValueCount, KeyToken;
    var m, q := ms[0], p + |Label(ms[0])|;
    var ts, ps := MemberTokens(ms[1..], q + |MemberValue(m)| + 1), MembersUnder(ms[1..], up, n + 1 + ValueCount(m));
    assert MemberTokens(ms, p) == [KeyToken(m, p)] + (ValueTokens(m, q) + ts);
    assert MembersUnder(ms, up, n) == [up] + (ValueUnder(m, n, n + 1) + ps);
    hide MemberTokens, MembersUnder;
    Regroup([KeyToken(m, p)], ValueTokens(m, q), ts);
    Regroup([up], ValueUnder(m, n, n + 1), ps);
  }

  lemma Regroup<T>(a: seq<T>, b: seq<T>, c: seq<T>)
    ensures a + (b + c) == (a + b) + c
  {
  }

  lemma NextMember(s: State, ms: seq<Member>)
    requires 0 <= s.super < |s.ts| && |ms| > 1
    ensures var t := BehindMember(s, ms[0]);
      BehindMembers(t.(pos := t.pos + 1, super := s.super), ms[1..]) == BehindMembers(s, ms)
  {
    hide ValueTokens, ValueUnder, MemberValue, Label, MemberTokens, MembersUnder, Members, Put, KeyToken;
    var m, q, b := ms[0], s.pos + |Label(ms[0])|, s.super;
    var t := BehindMember(s, m);
    var p := t.pos + 1;
    MembersSteps(ms, s.pos, b, |s.ts|);
    MembersFacts(ms);
    BehindMemberFacts(s, m);
    PutPut(s, t.pos, 1, [KeyToken(m, s.pos)] + ValueTokens(m, q), [b] + ValueUnder(m, |s.ts|, |s.ts| + 1), p,
           s.pos + |Members(ms)| - 1, |ms| - 1, MemberTokens(ms[1..], p), MembersUnder(ms[1..], b, |t.ts|), b);
    PutSuper(s, t.pos, 1, [KeyToken(m, s.pos)] + ValueTokens(m, q), b, t.super,
             [b] + ValueUnder(m, |s.ts|, |s.ts| + 1));
  }

  lemma PutSuper(s: State, p: nat, n: nat, ts: seq<Token>, super: int, super': int, ps: seq<int>)
    requires -1 <= s.super < |s.ts|
    ensures Put(s, p, n, ts, super', ps).(super := super) == Put(s, p, n, ts, super, ps)
  {
    hide BumpBy;
  }

  lemma MembersFacts(ms: seq<Member>)
    requires ms != []
    ensures Members(ms) == (Label(ms[0]) + MemberValue(ms[0])) + if |ms| == 1 then "}" else "," + Members(ms[1..])
    ensures MemberCount(ms) == 1 + ValueCount(ms[0]) + MemberCount(ms[1..])
    ensures ProperMembers(ms) ==> ProperMember(ms[0]) && ProperMembers(ms[1..])
  {
    hide ProperMember, ValueCount;
    var head, value := Label(ms[0]), MemberValue(ms[0]);
    var rest := if |ms| == 1 then "}" else "," + Members(ms[1..]);
    hide Label, MemberValue;
    assert Members(ms) == head + (value + rest);
    hide Members;
    Regroup(head, value, rest);
  }

  lemma BehindMemberFacts(s: State, m: Member)
    requires 0 <= s.super < |s.ts|
    ensures var t := BehindMember(s, m);
      && t.pos == s.pos + |Label(m)| + |MemberValue(m)| && |t.ts| == |s.ts| + 1 + ValueCount(m)
      && (t.super == s.super || t.super == |s.ts|)
  {
    hide Put, Label, MemberValue, ValueCount;
  }

  /** Members, from the first to the bracket behind the last. */
  lemma MembersRun(js: string, s: State, ms: seq<Member>, size: nat)
    requires ms != [] && WellFormed(js, s) && s.super >= 0 && At(js, s.pos, Members(ms)) && ProperMembers(ms)
    requires IsLast(s.ts, s.super) && s.ts[s.super].kind == Object && |s.ts| + MemberCount(ms) <= size
    ensures var e := Ending(BehindMembers(s, ms), s.super);
      Leads(js, s, e, size)
    decreases ms
  {
    hide Leads, Innermost, IsLast, BehindMember, BehindMembers, Members, ProperMember, ProperMembers, MemberCount,
      ValueCount, At, Label, MemberValue, Limit;
    var m, b := ms[0], s.super;
    var head, value := Label(m), MemberValue(m);
    var rest := if |ms| == 1 then "}" else "," + Members(ms[1..]);
    MembersFacts(ms);
    AtSplit(js, s.pos, head + value, rest);
    AtChar(js, s.pos + |head| + |value|, rest, 0);
    LimitAt(js, s.pos + |head| + |value|);
    MemberRun(js, s, m, size);
    MemberKeeps(s, m, b);
    var s1 := BehindMember(s, m);
    BehindMemberFacts(s, m);
    LeadsTo(js, s, s1, size);
    if |ms| == 1 {
      LastMember(s, ms);
      ClosesRun(js, s1, Object, b, size);
    } else {
      AtSplit(js, s1.pos, ",", Members(ms[1..]));
      CommaRun(js, s1, b, size);
      NextMember(s, ms);
      var s2 := s1.(pos := s1.pos + 1, super := b);
      LeadsTo(js, s1, s2, size);
      MembersRun(js, s2, ms[1..], size);
      LeadsOn(js, s1, s2, Ending(BehindMembers(s, ms), b), size);
    }
    LeadsOn(js, s, s1, Ending(BehindMembers(s, ms), b), size);
  }

  lemma ObjectFacts(v: Json, p: nat, up: int, n: nat)
    requires v.ObjectOf?
    ensures var ms := v.members; var rest := if ms == [] then v.inside + "}" else Members(ms);
      && Text(v) == "{" + rest && Count(v) == 1 + MemberCount(ms)
      && Tokens(v, p) == [Token(Object, p, p + 1 + |rest|, |ms|)] + MemberTokens(ms, p + 1)
      && Under(v, up, n) == [up] + MembersUnder(ms, n, n + 1)
      && (Proper(v) ==> Blank(v.inside) && ProperMembers(ms))
  {
    hide Members, MemberTokens, MembersUnder, MemberCount, Blank, ProperMembers;
  }

  lemma ObjectState(s: State, v: Json)
    requires -1 <= s.super < |s.ts| && v.ObjectOf?
    ensures var o, ms := Opened(s, Object), v.members;
      Behind(s, v) == Ending(if ms == [] then Filled(o, o.pos + |v.inside|, 0, [], []) else BehindMembers(o, ms),
                             o.super)
  {
    hide Innermost, Members, MemberTokens, MembersUnder, Text, Tokens, Under, Put;
    var o, ms := Opened(s, Object), v.members;
    var rest := if ms == [] then v.inside + "}" else Members(ms);
    ObjectFacts(v, s.pos, s.super, |s.ts|);
    MembersClosed(ms, o.pos);
    NoElements(o.pos, |s.ts|, |s.ts| + 1);
    hide AllClosed;
    ContainerPut(s, Object, o.pos + |rest| - 1, |ms|, MemberTokens(ms, o.pos), MembersUnder(ms, |s.ts|, |s.ts| + 1));
  }

  lemma ObjectRun(js: string, s: State, v: Json, size: nat)
    requires WellFormed(js, s) && v.ObjectOf? && At(js, s.pos, Text(v)) && Proper(v)
    requires |s.ts| + Count(v) <= size
    ensures Leads(js, s, Behind(s, v), size)
    decreases v, 0
  {
    hide Leads, Members, Text, Blank, ProperMembers, Proper, Count, MemberCount, IsLast, At, Behind, Filled,
      BehindMembers, Tokens, MemberTokens, Under, MembersUnder;
    var ms := v.members;
    var rest := if ms == [] then v.inside + "}" else Members(ms);
    ObjectFacts(v, s.pos, s.super, |s.ts|);
    AtSplit(js, s.pos, "{", rest);
    AtChar(js, s.pos, "{", 0);
    ObjectState(s, v);
    OpenedLast(s, Object);
    OpensRun(js, s, Object, size);
    var o := Opened(s, Object);
    LeadsTo(js, s, o, size);
    hide Opened, Put;
    if ms == [] {
      EmptyRun(js, o, Object, v.inside, size);
    } else {
      MembersRun(js, o, ms, size);
    }
    LeadsOn(js, s, o, Behind(s, v), size);
  }

  /** What follows the text: nothing, or a zero and then anything. */
  predicate Terminated(rest: string)
  {
    rest == "" || rest[0] == '\0'
  }

  lemma WholeText(d: Padded, rest: string)
    requires Terminated(rest)
    ensures At(PaddedText(d) + rest, 0, PaddedText(d)) && Ended(PaddedText(d) + rest, |PaddedText(d)|)
    ensures BehindPadded(State(0, [], -1, []), d)
         == State(|PaddedText(d)|, PaddedTokens(d, 0), -1, PaddedUnder(d, -1, 0))
  {
    hide PaddedText, PaddedTokens, PaddedUnder;
    assert (PaddedText(d) + rest)[0..0 + |PaddedText(d)|] == PaddedText(d);
    assert [] + PaddedTokens(d, 0) == PaddedTokens(d, 0) && [] + PaddedUnder(d, -1, 0) == PaddedUnder(d, -1, 0);
  }

  lemma AtTheEnd(js: string, s: State, size: nat)
    requires Ended(js, s.pos) && AllClosed(s.ts)
    requires WellFormed(js, s)
    ensures Run(js, s, size) == (|s.ts|, s)
  {
    InnermostIs(s.ts, -1);
  }

  lemma LeadsValue(js: string, s: State, t: State, size: nat)
    requires Leads(js, s, t, size)
    ensures WellFormed(js, s) && WellFormed(js, t) && Run(js, s, size) == Run(js, t, size)
  {
    hide Run;
  }

  /** What the parser makes of a text that is JSON: its tokens in the order of their beginnings, with the number of
      elements, of members, or of the values of a key as their sizes. */
  lemma ParseTree(d: Padded, rest: string, size: nat)
    requires ProperPadded(d) && Terminated(rest) && PaddedCount(d) <= size
    ensures Run(PaddedText(d) + rest, State(0, [], -1, []), size)
         == (PaddedCount(d), State(|PaddedText(d)|, PaddedTokens(d, 0), -1, PaddedUnder(d, -1, 0)))
  {
    hide PaddedText, PaddedTokens, PaddedUnder, PaddedCount, ProperPadded, BehindPadded, Run, Leads, At, AllClosed;
    var js, s := PaddedText(d) + rest, State(0, [], -1, []);
    var t := State(|PaddedText(d)|, PaddedTokens(d, 0), -1, PaddedUnder(d, -1, 0));
    WholeText(d, rest);
    PaddedClosed(d, 0);
    PaddedRun(js, s, d, size);
    LeadsValue(js, s, t, size);
    AtTheEnd(js, t, size);
  }

  /** And counting its tokens beforehand gives as many. */
  lemma CountTree(d: Padded, rest: string)
    requires ProperPadded(d) && Terminated(rest)
    ensures Tally(PaddedText(d) + rest, 0, 0) == PaddedCount(d)
  {
    hide PaddedText, PaddedTokens, PaddedUnder, PaddedCount, ProperPadded, Run, Tally, Verdict;
    var js, n := PaddedText(d) + rest, PaddedCount(d);
    ParseTree(d, rest, n);
    RunVerdict(js, State(0, [], -1, []), n);
    TallyAgrees(js, 0, [], n, 0);
  }
}
