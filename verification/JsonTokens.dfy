/** What the tokens of a parse say about the text, and how one lexeme changes them. */
module JsonTokens {
  import opened JsonScan

  datatype Token = Token(kind: Kind, start: int, end: int, size: nat)

  /** A container whose closing bracket has not come yet. */
  predicate IsOpen(t: Token)
  {
    t.start != -1 && t.end == -1
  }

  function Bracket(k: Kind): (char, char)
    requires k.Object? || k.Array?
  {
    if k.Object? then ('{', '}') else ('[', ']')
  }

  /** The token is what stands in the text before p. */
  predicate Faithful(js: string, p: nat, t: Token)
  {
    && p <= |js| && 0 <= t.start < p
    && match t.kind
       case String => 0 < t.start <= t.end < p && js[t.start - 1] == '\"' && StringEnd(js, t.start) == Closed(t.end)
       case Primitive => t.start < t.end <= p && PrimitiveEnd(js, t.start) == Closed(t.end)
       case _ =>
         && js[t.start] == Bracket(t.kind).0
         && (t.end == -1 || (t.start + 1 < t.end <= p && js[t.end - 1] == Bracket(t.kind).1))
  }

  /** Two tokens in the order of their starts: apart, or the later one strictly inside. */
  predicate Apart(s: Token, t: Token)
  {
    s.start < t.start && (!IsOpen(s) ==> s.end <= t.start || (!IsOpen(t) && t.end < s.end))
  }

  /** The number of tokens that were put under token i. */
  function Children(parents: seq<int>, i: int): nat
  {
    if parents == [] then 0
    else Children(parents[..|parents| - 1], i) + if parents[|parents| - 1] == i then 1 else 0
  }

  predicate Sound(js: string, p: nat, ts: seq<Token>, super: int, parents: seq<int>)
  {
    && p <= |js| && -1 <= super < |ts| && |parents| == |ts|
    && (forall i :: 0 <= i < |ts| ==> Faithful(js, p, ts[i]))
    && (forall i, j :: 0 <= i < j < |ts| ==> Apart(ts[i], ts[j]))
    && (forall i :: 0 <= i < |ts| ==> -1 <= parents[i] < i)
    && (forall i :: 0 <= i < |ts| ==> ts[i].size == Children(parents, i))
  }

  /** The kinds of the open tokens, outermost first. */
  function OpenKinds(ts: seq<Token>): seq<Kind>
  {
    if ts == [] then []
    else
      var t := ts[|ts| - 1];
      OpenKinds(ts[..|ts| - 1]) + if IsOpen(t) then [t.kind] else []
  }

  /** Token i is the last open one; i is -1 when there is none. */
  ghost predicate IsLast(ts: seq<Token>, i: int)
  {
    && -1 <= i < |ts|
    && (i >= 0 ==> IsOpen(ts[i]))
    && forall j :: i < j < |ts| ==> !IsOpen(ts[j])
  }

  /** One more child for a token; -1 stands for no token. */
  function Bump(ts: seq<Token>, i: int): (r: seq<Token>)
    requires -1 <= i < |ts|
    ensures |r| == |ts|
  {
    if i == -1 then ts else ts[i := ts[i].(size := ts[i].size + 1)]
  }

  // ----- the stack of open tokens

  lemma {:induction false} OpenAppend(ts: seq<Token>, t: Token)
    ensures OpenKinds(ts + [t]) == OpenKinds(ts) + if IsOpen(t) then [t.kind] else []
  {
    assert (ts + [t])[..|ts|] == ts;
  }

  lemma {:induction false} OpenSame(ts: seq<Token>, us: seq<Token>)
    requires |ts| == |us|
    requires forall i :: 0 <= i < |ts| ==>
      ts[i].kind == us[i].kind && ts[i].start == us[i].start && ts[i].end == us[i].end
    ensures OpenKinds(ts) == OpenKinds(us)
  {
    if ts != [] {
      OpenSame(ts[..|ts| - 1], us[..|us| - 1]);
    }
  }

  lemma {:induction false} NoneOpen(ts: seq<Token>)
    ensures OpenKinds(ts) == [] <==> forall i :: 0 <= i < |ts| ==> !IsOpen(ts[i])
  {
    if ts != [] {
      NoneOpen(ts[..|ts| - 1]);
    }
  }

  /** The last open token is the top of the stack, and closing it takes it off. */
  lemma {:induction false} OpenLast(ts: seq<Token>, i: nat, t: Token)
    requires IsLast(ts, i) && !IsOpen(t)
    ensures OpenKinds(ts) == OpenKinds(ts[i := t]) + [ts[i].kind]
    decreases |ts|
  {
    var n := |ts| - 1;
    if i == n {
      assert ts[i := t][..n] == ts[..n];
    } else {
      OpenLast(ts[..n], i, t);
      assert ts[i := t][..n] == ts[..n][i := t];
    }
  }

  // ----- the tokens after one lexeme

  lemma {:induction false} ChildrenNone(parents: seq<int>, i: int)
    requires forall j :: 0 <= j < |parents| ==> parents[j] < i
    ensures Children(parents, i) == 0
  {
    if parents != [] {
      ChildrenNone(parents[..|parents| - 1], i);
    }
  }

  lemma ChildrenAppend(parents: seq<int>, q: int, i: int)
    ensures Children(parents + [q], i) == Children(parents, i) + if q == i then 1 else 0
  {
    assert (parents + [q])[..|parents|] == parents;
  }

  lemma FaithfulLater(js: string, p: nat, q: nat, t: Token)
    requires Faithful(js, p, t) && p <= q <= |js|
    ensures Faithful(js, q, t)
  {
  }

  lemma SoundLater(js: string, p: nat, q: nat, ts: seq<Token>, super: int, newSuper: int, parents: seq<int>)
    requires Sound(js, p, ts, super, parents) && p <= q <= |js| && -1 <= newSuper < |ts|
    ensures Sound(js, q, ts, newSuper, parents)
  {
    forall i | 0 <= i < |ts| ensures Faithful(js, q, ts[i]) {
      FaithfulLater(js, p, q, ts[i]);
    }
  }

  lemma SizesAppend(ts: seq<Token>, super: int, parents: seq<int>, t: Token)
    requires -1 <= super < |ts| == |parents| && t.size == 0
    requires forall i :: 0 <= i < |ts| ==> -1 <= parents[i] < i && ts[i].size == Children(parents, i)
    ensures var us := Bump(ts, super) + [t];
      forall i :: 0 <= i < |us| ==> us[i].size == Children(parents + [super], i)
  {
    var us := Bump(ts, super) + [t];
    forall i | 0 <= i < |us| ensures us[i].size == Children(parents + [super], i) {
      ChildrenAppend(parents, super, i);
      if i == |ts| {
        ChildrenNone(parents, i);
      }
    }
  }

  lemma FaithfulAppend(js: string, p: nat, q: nat, ts: seq<Token>, super: int, t: Token)
    requires -1 <= super < |ts| && p <= q <= |js| && Faithful(js, q, t)
    requires forall i :: 0 <= i < |ts| ==> Faithful(js, p, ts[i])
    ensures var us := Bump(ts, super) + [t]; forall i :: 0 <= i < |us| ==> Faithful(js, q, us[i])
  {
    var us := Bump(ts, super) + [t];
    forall i | 0 <= i < |us| ensures Faithful(js, q, us[i]) {
      if i < |ts| {
        FaithfulLater(js, p, q, ts[i]);
      }
    }
  }

  lemma ApartNew(js: string, p: nat, s: Token, t: Token)
    requires Faithful(js, p, s) && p <= t.start
    ensures Apart(s, t)
  {
  }

  lemma ApartAppend(js: string, p: nat, ts: seq<Token>, super: int, t: Token)
    requires -1 <= super < |ts| && p <= t.start
    requires forall i :: 0 <= i < |ts| ==> Faithful(js, p, ts[i])
    requires forall i, j :: 0 <= i < j < |ts| ==> Apart(ts[i], ts[j])
    ensures var us := Bump(ts, super) + [t]; forall i, j :: 0 <= i < j < |us| ==> Apart(us[i], us[j])
  {
    var us := Bump(ts, super) + [t];
    forall i, j | 0 <= i < j < |us| ensures Apart(us[i], us[j]) {
      ApartNew(js, p, ts[i], t);
      hide Faithful;
      if j < |ts| {
        assert Apart(ts[i], ts[j]);
      }
    }
  }

  /** A new token goes behind the others and under the superior token. */
  lemma SoundAppend(js: string, p: nat, q: nat, ts: seq<Token>, super: int, parents: seq<int>, t: Token, newSuper: int)
    requires Sound(js, p, ts, super, parents) && p <= t.start && p <= q && Faithful(js, q, t) && t.size == 0
    requires -1 <= newSuper <= |ts|
    ensures Sound(js, q, Bump(ts, super) + [t], newSuper, parents + [super])
  {
    FaithfulAppend(js, p, q, ts, super, t);
    ApartAppend(js, p, ts, super, t);
    SizesAppend(ts, super, parents, t);
    hide Faithful, Apart, Children, Bump;
  }

  lemma BumpAppend(ts: seq<Token>, t: Token, super: int)
    requires -1 <= super < |ts|
    ensures Bump(ts + [t], super) == Bump(ts, super) + [t]
  {
  }

  /** A closing bracket ends the last open token. */
  lemma SoundClose(js: string, p: nat, ts: seq<Token>, super: int, parents: seq<int>, i: nat, newSuper: int)
    requires Sound(js, p, ts, super, parents) && p < |js| && IsLast(ts, i) && -1 <= newSuper < |ts|
    requires (ts[i].kind.Object? || ts[i].kind.Array?) && js[p] == Bracket(ts[i].kind).1
    ensures Sound(js, p + 1, ts[i := ts[i].(end := p + 1)], newSuper, parents)
  {
    var us := ts[i := ts[i].(end := p + 1)];
    forall k | 0 <= k < |us| ensures Faithful(js, p + 1, us[k]) && us[k].size == Children(parents, k) {
      assert Faithful(js, p, ts[k]);
      assert ts[k].size == Children(parents, k);
    }
    forall k, j | 0 <= k < j < |us| ensures Apart(us[k], us[j]) {
      assert Apart(ts[k], ts[j]);
      assert Faithful(js, p, ts[j]);
    }
  }

  lemma OpenAdded(ts: seq<Token>, t: Token, super: int)
    requires -1 <= super < |ts|
    ensures OpenKinds(Bump(ts + [t], super)) == if IsOpen(t) then OpenKinds(ts) + [t.kind] else OpenKinds(ts)
  {
    BumpAppend(ts, t, super);
    OpenSame(ts, Bump(ts, super));
    OpenAppend(Bump(ts, super), t);
    hide OpenKinds, Bump;
    assert OpenKinds(ts) + [] == OpenKinds(ts);
  }

  lemma OpenClosed(ts: seq<Token>, i: nat, t: Token)
    requires IsLast(ts, i) && !IsOpen(t)
    ensures OpenKinds(ts) != [] && OpenKinds(ts[i := t]) == Pop(OpenKinds(ts))
  {
    OpenLast(ts, i, t);
    hide OpenKinds;
  }

  /** No open token, or one on top of the stack. */
  lemma OpenTop(ts: seq<Token>, i: int)
    requires IsLast(ts, i)
    ensures if i == -1 then OpenKinds(ts) == []
            else OnTop(ts[i].kind, OpenKinds(ts))
  {
    NoneOpen(ts);
    if i >= 0 {
      OpenLast(ts, i, ts[i].(end := 0));
    }
  }

  // ----- what that comes to

  /** The sizes add up to the number of tokens that were put under another one. */
  function SizeSum(ts: seq<Token>): nat
  {
    if ts == [] then 0 else SizeSum(ts[..|ts| - 1]) + ts[|ts| - 1].size
  }

  function Placed(parents: seq<int>): nat
  {
    if parents == [] then 0 else Placed(parents[..|parents| - 1]) + if parents[|parents| - 1] == -1 then 0 else 1
  }

  /** The children of the first n tokens. */
  function ChildrenBelow(parents: seq<int>, n: nat): nat
  {
    if n == 0 then 0 else ChildrenBelow(parents, n - 1) + Children(parents, n - 1)
  }

  lemma {:induction false} BelowAppend(parents: seq<int>, q: int, n: nat)
    ensures ChildrenBelow(parents + [q], n) == ChildrenBelow(parents, n) + if 0 <= q < n then 1 else 0
  {
    if n > 0 {
      BelowAppend(parents, q, n - 1);
      ChildrenAppend(parents, q, n - 1);
    }
  }

  lemma {:induction false} PlacedBelow(parents: seq<int>, n: nat)
    requires forall i :: 0 <= i < |parents| ==> -1 <= parents[i] < n
    ensures ChildrenBelow(parents, n) == Placed(parents)
    decreases |parents|
  {
    if parents == [] {
      NoChildren(n);
    } else {
      var m := |parents| - 1;
      PlacedBelow(parents[..m], n);
      BelowAppend(parents[..m], parents[m], n);
      assert parents[..m] + [parents[m]] == parents;
    }
  }

  lemma {:induction false} NoChildren(n: nat)
    ensures ChildrenBelow([], n) == 0
  {
    if n > 0 {
      NoChildren(n - 1);
    }
  }

  lemma {:induction false} SizesBelow(ts: seq<Token>, parents: seq<int>)
    requires forall i :: 0 <= i < |ts| ==> ts[i].size == Children(parents, i)
    ensures SizeSum(ts) == ChildrenBelow(parents, |ts|)
  {
    if ts != [] {
      SizesBelow(ts[..|ts| - 1], parents);
    }
  }

  lemma SizesPlaced(js: string, p: nat, ts: seq<Token>, super: int, parents: seq<int>)
    requires Sound(js, p, ts, super, parents)
    ensures SizeSum(ts) == Placed(parents)
  {
    SizesBelow(ts, parents);
    PlacedBelow(parents, |ts|);
  }
}
