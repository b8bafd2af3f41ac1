/** Texts that are JSON, with any white space, and the tokens they have in the order of their beginnings. */
module JsonTree {
  import opened JsonScan
  import opened JsonTokens

  /** Word is a number or a literal, Quoted the body of a string; inside is what stands in an empty container. */
  datatype Json =
    | Word(text: string)
    | Quoted(body: string)
    | ArrayOf(elements: seq<Padded>, inside: string)
    | ObjectOf(members: seq<Member>, inside: string)

  datatype Padded = Padded(before: string, value: Json, after: string)

  datatype Member = Member(before: string, key: string, gap: string, value: Padded)

  // ----- what may stand in a text

  predicate Blank(t: string)
  {
    forall i :: 0 <= i < |t| ==> t[i] in "\t\r\n "
  }

  /** The printable characters of ASCII but for the blank, the comma, the colon and the closing brackets. */
  predicate Plain(t: string)
  {
    forall i :: 0 <= i < |t| ==> 32 < t[i] as int < 127 && t[i] !in ",:]}"
  }

  /** An unquoted value does not start like something else. */
  predicate WordText(t: string)
  {
    t != "" && t[0] !in "{[\"" && Plain(t)
  }

  /** Behind an unquoted value the text ends or a delimiter follows. */
  predicate Limit(js: string, p: nat)
  {
    Ended(js, p) || js[p] in "\t\r\n ,:]}"
  }

  predicate HexDigits(t: string)
  {
    forall i :: 0 <= i < |t| ==> t[i] in "0123456789ABCDEFabcdef"
  }

  lemma IsHexDigit(c: char)
    ensures IsHex(c) <==> c in "0123456789ABCDEFabcdef"
  {
  }

  /** The body of a string: no quote and no backslash but in escapes. */
  predicate Body(t: string)
    decreases |t|
  {
    if t == "" then true
    else if t[0] != '\\' then t[0] != '\"' && t[0] != '\0' && Body(t[1..])
    else
      || (|t| >= 2 && t[1] in "\"/\\bfrnt" && Body(t[2..]))
      || (|t| >= 6 && t[1] == 'u' && HexDigits(t[2..6]) && Body(t[6..]))
  }

  // ----- the literals and numbers of section 3 and section 6 of RFC 8259

  predicate Digits(t: string)
  {
    t != "" && forall i :: 0 <= i < |t| ==> t[i] in "0123456789"
  }

  /** The integer part: no superfluous zero in front. */
  predicate Whole(t: string)
  {
    Digits(t) && (t[0] == '0' ==> |t| == 1)
  }

  predicate Fraction(t: string)
  {
    t == "" || (t[0] == '.' && Digits(t[1..]))
  }

  predicate Exponent(t: string)
  {
    t == "" || (t[0] in "eE" && (Digits(t[1..]) || (|t| > 1 && t[1] in "+-" && Digits(t[2..]))))
  }

  /** Every number is an unquoted value. */
  lemma NumberIsWord(sign: string, whole: string, fraction: string, exponent: string)
    requires (sign == "" || sign == "-") && Whole(whole) && Fraction(fraction) && Exponent(exponent)
    ensures WordText(sign + whole + fraction + exponent)
  {
    WholeStart(whole);
    FractionIsPlain(fraction);
    ExponentIsPlain(exponent);
    assert Plain(sign);
    hide Plain, Whole, Fraction, Exponent;
    Joined(sign, whole);
    Joined(sign + whole, fraction);
    Joined(sign + whole + fraction, exponent);
    assert (sign + whole)[0] == if sign == "" then whole[0] else '-';
  }

  lemma Joined(s: string, t: string)
    requires Plain(s) && Plain(t)
    ensures Plain(s + t)
  {
  }

  lemma PlainDigits(t: string)
    requires Digits(t)
    ensures Plain(t)
  {
    forall i | 0 <= i < |t|
      ensures '0' <= t[i] <= '9'
    {
      assert t[i] in "0123456789";
    }
  }

  lemma WholeStart(t: string)
    requires Whole(t)
    ensures Plain(t) && t != "" && t[0] !in "{[\""
  {
    PlainDigits(t);
  }

  lemma FractionIsPlain(t: string)
    requires Fraction(t)
    ensures Plain(t)
  {
    if t != "" {
      PlainDigits(t[1..]);
      Joined(".", t[1..]);
      assert t == "." + t[1..];
    }
  }

  lemma ExponentIsPlain(t: string)
    requires Exponent(t)
    ensures Plain(t)
  {
    if t != "" {
      var k := if Digits(t[1..]) then 1 else 2;
      PlainDigits(t[k..]);
      Joined(t[..k], t[k..]);
      assert t == t[..k] + t[k..];
    }
  }

  lemma LiteralsAreWords()
    ensures WordText("true") && WordText("false") && WordText("null")
  {
  }

  predicate Proper(v: Json)
    decreases v, 0
  {
    match v
    case Word(t) => WordText(t)
    case Quoted(b) => Body(b)
    case ArrayOf(es, inside) => Blank(inside) && ProperElements(es)
    case ObjectOf(ms, inside) => Blank(inside) && ProperMembers(ms)
  }

  predicate ProperPadded(d: Padded)
    decreases d, 0
  {
    Blank(d.before) && Proper(d.value) && Blank(d.after)
  }

  predicate ProperElements(es: seq<Padded>)
    decreases es, 1
  {
    es == [] || (ProperPadded(es[0]) && ProperElements(es[1..]))
  }

  predicate ProperMembers(ms: seq<Member>)
    decreases ms, 1
  {
    ms == [] || (ProperMember(ms[0]) && ProperMembers(ms[1..]))
  }

  predicate ProperMember(m: Member)
    decreases m, 0
  {
    Blank(m.before) && Body(m.key) && Blank(m.gap) && ProperPadded(m.value)
  }

  // ----- the text

  function Text(v: Json): (t: string)
    ensures t != "" || v.Word?
    decreases v, 0
  {
    match v
    case Word(t) => t
    case Quoted(b) => "\"" + b + "\""
    case ArrayOf(es, inside) => "[" + if es == [] then inside + "]" else Elements(es)
    case ObjectOf(ms, inside) => "{" + if ms == [] then inside + "}" else Members(ms)
  }

  function PaddedText(d: Padded): string
    decreases d, 0
  {
    d.before + (Text(d.value) + d.after)
  }

  /** The elements of an array up to and including the bracket. */
  function Elements(es: seq<Padded>): string
    requires es != []
    decreases es, 1
  {
    PaddedText(es[0]) + if |es| == 1 then "]" else "," + Elements(es[1..])
  }

  /** A member up to and including the colon. */
  function Label(m: Member): string
  {
    m.before + (("\"" + m.key + "\"") + (m.gap + ":"))
  }

  function Members(ms: seq<Member>): string
    requires ms != []
    decreases ms, 1
  {
    Label(ms[0]) + (MemberValue(ms[0]) + if |ms| == 1 then "}" else "," + Members(ms[1..]))
  }

  function MemberValue(m: Member): string
    decreases m, 0
  {
    PaddedText(m.value)
  }

  // ----- the tokens

  function Count(v: Json): (n: nat)
    ensures n > 0
    decreases v, 0
  {
    match v
    case ArrayOf(es, _) => 1 + ElementCount(es)
    case ObjectOf(ms, _) => 1 + MemberCount(ms)
    case _ => 1
  }

  function ElementCount(es: seq<Padded>): nat
    decreases es, 1
  {
    if es == [] then 0 else PaddedCount(es[0]) + ElementCount(es[1..])
  }

  function PaddedCount(d: Padded): (n: nat)
    ensures n > 0
    decreases d, 0
  {
    Count(d.value)
  }

  function MemberCount(ms: seq<Member>): nat
    decreases ms, 1
  {
    if ms == [] then 0 else 1 + ValueCount(ms[0]) + MemberCount(ms[1..])
  }

  function ValueCount(m: Member): nat
    decreases m, 0
  {
    PaddedCount(m.value)
  }

  /** The tokens of a value that starts at p: containers before what is in them.  The size of an array is the number of
      its elements, that of an object the number of its members, and that of a key is one. */
  function Tokens(v: Json, p: nat): (ts: seq<Token>)
    ensures |ts| == Count(v)
    decreases v, 0
  {
    match v
    case Word(t) => [Token(Primitive, p, p + |t|, 0)]
    case Quoted(b) => [Token(String, p + 1, p + 1 + |b|, 0)]
    case ArrayOf(es, _) => [Token(Array, p, p + |Text(v)|, |es|)] + ElementTokens(es, p + 1)
    case ObjectOf(ms, _) => [Token(Object, p, p + |Text(v)|, |ms|)] + MemberTokens(ms, p + 1)
  }

  function PaddedTokens(d: Padded, p: nat): (ts: seq<Token>)
    ensures |ts| == PaddedCount(d)
    decreases d, 0
  {
    Tokens(d.value, p + |d.before|)
  }

  function ElementTokens(es: seq<Padded>, p: nat): (ts: seq<Token>)
    ensures |ts| == ElementCount(es)
    decreases es, 1
  {
    if es == [] then []
    else PaddedTokens(es[0], p) + ElementTokens(es[1..], p + |PaddedText(es[0])| + 1)
  }

  function KeyToken(m: Member, p: nat): Token
  {
    Token(String, p + |m.before| + 1, p + |m.before| + 1 + |m.key|, 1)
  }

  function ValueTokens(m: Member, p: nat): (ts: seq<Token>)
    ensures |ts| == ValueCount(m)
    decreases m, 0
  {
    PaddedTokens(m.value, p)
  }

  function MemberTokens(ms: seq<Member>, p: nat): (ts: seq<Token>)
    ensures |ts| == MemberCount(ms)
    decreases ms, 1
  {
    if ms == [] then []
    else
      var q := p + |Label(ms[0])|;
      [KeyToken(ms[0], p)] + (ValueTokens(ms[0], q) + MemberTokens(ms[1..], q + |MemberValue(ms[0])| + 1))
  }

  // ----- under which token each token stands

  /** The value stands under token up, and its own token is number n: elements stand under their array, keys under
      their object, and values under their keys. */
  function Under(v: Json, up: int, n: nat): (ps: seq<int>)
    decreases v, 0
  {
    match v
    case ArrayOf(es, _) => [up] + ElementsUnder(es, n, n + 1)
    case ObjectOf(ms, _) => [up] + MembersUnder(ms, n, n + 1)
    case _ => [up]
  }

  function PaddedUnder(d: Padded, up: int, n: nat): (ps: seq<int>)
    decreases d, 0
  {
    Under(d.value, up, n)
  }

  function ElementsUnder(es: seq<Padded>, up: int, n: nat): (ps: seq<int>)
    decreases es, 1
  {
    if es == [] then [] else PaddedUnder(es[0], up, n) + ElementsUnder(es[1..], up, n + PaddedCount(es[0]))
  }

  function ValueUnder(m: Member, up: int, n: nat): (ps: seq<int>)
    decreases m, 0
  {
    PaddedUnder(m.value, up, n)
  }

  function MembersUnder(ms: seq<Member>, up: int, n: nat): (ps: seq<int>)
    decreases ms, 1
  {
    if ms == [] then []
    else [up] + (ValueUnder(ms[0], n, n + 1) + MembersUnder(ms[1..], up, n + 1 + ValueCount(ms[0])))
  }

  // ----- every one of these tokens is closed

  predicate AllClosed(ts: seq<Token>)
  {
    forall i :: 0 <= i < |ts| ==> !IsOpen(ts[i])
  }

  lemma {:induction false} TokensClosed(v: Json, p: nat)
    ensures AllClosed(Tokens(v, p))
    decreases v, 0
  {
    match v
    case ArrayOf(es, _) => ElementsClosed(es, p + 1);
    case ObjectOf(ms, _) => MembersClosed(ms, p + 1);
    case _ =>
  }

  lemma {:induction false} PaddedClosed(d: Padded, p: nat)
    ensures AllClosed(PaddedTokens(d, p))
    decreases d, 0
  {
    TokensClosed(d.value, p + |d.before|);
  }

  lemma {:induction false} ElementsClosed(es: seq<Padded>, p: nat)
    ensures AllClosed(ElementTokens(es, p))
    decreases es, 1
  {
    if es != [] {
      PaddedClosed(es[0], p);
      ElementsClosed(es[1..], p + |PaddedText(es[0])| + 1);
    }
  }

  lemma {:induction false} ValueClosed(m: Member, p: nat)
    ensures AllClosed(ValueTokens(m, p))
    decreases m, 0
  {
    PaddedClosed(m.value, p);
  }

  lemma {:induction false} MembersClosed(ms: seq<Member>, p: nat)
    ensures AllClosed(MemberTokens(ms, p))
    decreases ms, 1
  {
    if ms != [] {
      var q := p + |Label(ms[0])|;
      ValueClosed(ms[0], q);
      MembersClosed(ms[1..], q + |MemberValue(ms[0])| + 1);
    }
  }
}
