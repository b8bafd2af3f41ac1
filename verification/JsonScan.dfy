/** The language of jsmn.h without JSMN_STRICT: lexemes, and a stack machine that decides about a whole text. */
module JsonScan {
  const ERROR_NOMEM: int := -1
  const ERROR_INVAL: int := -2
  const ERROR_PART: int := -3

  datatype Kind = Object | Array | String | Primitive

  datatype Scan = Closed(at: nat) | Broken(code: int)

  datatype Hex = Past(at: nat) | NotHex

  /** A text ends at its length or at a zero character. */
  predicate Ended(js: string, p: nat)
  {
    p >= |js| || js[p] == '\0'
  }

  predicate IsHex(c: char)
  {
    '0' <= c <= '9' || 'A' <= c <= 'F' || 'a' <= c <= 'f'
  }

  predicate Delimits(c: char)
  {
    c in ":\t\r\n ,]}"
  }

  predicate Unprintable(c: char)
  {
    c < ' ' || c as int >= 127
  }

  /** Up to n hexadecimal digits; fewer only where the text ends. */
  function HexEnd(js: string, p: nat, n: nat): (r: Hex)
    ensures r.Past? ==> p <= r.at && (p <= |js| ==> r.at <= |js|)
    decreases n
  {
    if n == 0 || Ended(js, p) then Past(p)
    else if IsHex(js[p]) then HexEnd(js, p + 1, n - 1)
    else NotHex
  }

  /** The quote that closes a string whose rest starts at p. */
  function StringEnd(js: string, p: nat): (r: Scan)
    ensures r.Closed? ==> p <= r.at < |js| && js[r.at] == '\"'
    ensures r.Broken? ==> r.code == ERROR_INVAL || r.code == ERROR_PART
    decreases |js| - p
  {
    if Ended(js, p) then Broken(ERROR_PART)
    else if js[p] == '\"' then Closed(p)
    else if js[p] != '\\' || p + 1 == |js| then StringEnd(js, p + 1)
    else if js[p + 1] in "\"/\\bfrnt" then StringEnd(js, p + 2)
    else if js[p + 1] != 'u' then Broken(ERROR_INVAL)
    else match HexEnd(js, p + 2, 4)
      case NotHex => Broken(ERROR_INVAL)
      case Past(q) => StringEnd(js, q)
  }

  /** The first character behind an unquoted value. */
  function PrimitiveEnd(js: string, p: nat): (r: Scan)
    ensures r.Closed? ==> p <= r.at && (p <= |js| ==> r.at <= |js|)
    ensures r.Broken? ==> r.code == ERROR_INVAL || r.code == ERROR_PART
    decreases |js| - p
  {
    if Ended(js, p) || Delimits(js[p]) then Closed(p)
    else if Unprintable(js[p]) then Broken(ERROR_INVAL)
    else PrimitiveEnd(js, p + 1)
  }

  datatype Lexeme =
    | Skip
    | Opens(kind: Kind)
    | Closes(kind: Kind)
    | Leaf(kind: Kind, start: nat, end: nat, next: nat)
    | Bad(code: int)

  function Lex(js: string, p: nat): (r: Lexeme)
    requires !Ended(js, p)
    ensures r.Leaf? ==> p <= r.start <= r.end <= r.next <= |js| && p < r.next
    ensures r.Bad? ==> r.code == ERROR_INVAL || r.code == ERROR_PART
  {
    var c := js[p];
    if c == '{' then Opens(Object)
    else if c == '[' then Opens(Array)
    else if c == '}' then Closes(Object)
    else if c == ']' then Closes(Array)
    else if c in "\t\r\n :," then Skip
    else if c == '\"' then
      match StringEnd(js, p + 1)
      case Broken(code) => Bad(code)
      case Closed(e) => Leaf(String, p + 1, e, e + 1)
    else
      match PrimitiveEnd(js, p)
      case Broken(code) => Bad(code)
      case Closed(e) => Leaf(Primitive, p, e, e)
  }

  predicate OnTop(k: Kind, open: seq<Kind>)
  {
    open != [] && open[|open| - 1] == k
  }

  function Pop(open: seq<Kind>): seq<Kind>
    requires open != []
  {
    open[..|open| - 1]
  }

  /** The value of a parse: open holds the kinds of the containers not closed yet, room the tokens still free. */
  function Verdict(js: string, p: nat, open: seq<Kind>, room: nat, count: nat): int
    decreases |js| - p
  {
    if Ended(js, p) then (if open == [] then count else ERROR_PART)
    else match Lex(js, p)
      case Skip => Verdict(js, p + 1, open, room, count)
      case Bad(code) => code
      case Opens(k) =>
        if room == 0 then ERROR_NOMEM else Verdict(js, p + 1, open + [k], room - 1, count + 1)
      case Closes(k) =>
        if OnTop(k, open) then Verdict(js, p + 1, Pop(open), room, count) else ERROR_INVAL
      case Leaf(_, _, _, next) =>
        if room == 0 then ERROR_NOMEM else Verdict(js, next, open, room - 1, count + 1)
  }

  lemma VerdictStep(js: string, p: nat, open: seq<Kind>, room: nat, count: nat)
    requires !Ended(js, p)
    ensures Verdict(js, p, open, room, count) ==
      match Lex(js, p)
      case Skip => Verdict(js, p + 1, open, room, count)
      case Bad(code) => code
      case Opens(k) =>
        if room == 0 then ERROR_NOMEM else Verdict(js, p + 1, open + [k], room - 1, count + 1)
      case Closes(k) =>
        if OnTop(k, open) then Verdict(js, p + 1, Pop(open), room, count) else ERROR_INVAL
      case Leaf(_, _, _, next) =>
        if room == 0 then ERROR_NOMEM else Verdict(js, next, open, room - 1, count + 1)
  {
  }

  /** The value of a parse that has used some of the tokens of an array of the given size. */
  function Outcome(js: string, p: nat, open: seq<Kind>, used: nat, size: nat): int
    requires used <= size
  {
    Verdict(js, p, open, size - used, used)
  }

  /** The value of a parse without an array of tokens, which counts and does not look at the nesting. */
  function Tally(js: string, p: nat, count: nat): int
    decreases |js| - p
  {
    if Ended(js, p) then count
    else match Lex(js, p)
      case Skip => Tally(js, p + 1, count)
      case Bad(code) => code
      case Opens(_) => Tally(js, p + 1, count + 1)
      case Closes(_) => Tally(js, p + 1, count)
      case Leaf(_, _, _, next) => Tally(js, next, count + 1)
  }

  /** A parse that succeeds returns what counting returns. */
  lemma {:induction false} TallyAgrees(js: string, p: nat, open: seq<Kind>, room: nat, count: nat)
    requires Verdict(js, p, open, room, count) >= 0
    ensures Tally(js, p, count) == Verdict(js, p, open, room, count)
    decreases |js| - p
  {
    if !Ended(js, p) {
      match Lex(js, p)
      case Skip => TallyAgrees(js, p + 1, open, room, count);
      case Bad(_) =>
      case Opens(k) => TallyAgrees(js, p + 1, open + [k], room - 1, count + 1);
      case Closes(_) => TallyAgrees(js, p + 1, Pop(open), room, count);
      case Leaf(_, _, _, next) => TallyAgrees(js, next, open, room - 1, count + 1);
    }
  }

  lemma {:induction false} TallyGrows(js: string, p: nat, count: nat)
    ensures Tally(js, p, count) < 0 || Tally(js, p, count) >= count
    decreases |js| - p
  {
    if !Ended(js, p) {
      match Lex(js, p)
      case Skip => TallyGrows(js, p + 1, count);
      case Bad(_) =>
      case Opens(_) => TallyGrows(js, p + 1, count + 1);
      case Closes(_) => TallyGrows(js, p + 1, count);
      case Leaf(_, _, _, next) => TallyGrows(js, next, count + 1);
    }
  }

  /** Counting first and then giving that many tokens: memory runs out exactly when there are fewer. */
  lemma {:induction false} TallySuffices(js: string, p: nat, open: seq<Kind>, room: nat, count: nat)
    requires Tally(js, p, count) >= 0
    ensures count + room >= Tally(js, p, count) ==> Verdict(js, p, open, room, count) != ERROR_NOMEM
    ensures count + room < Tally(js, p, count) ==> Verdict(js, p, open, room, count) < 0
    decreases |js| - p
  {
    if !Ended(js, p) {
      match Lex(js, p)
      case Skip => TallySuffices(js, p + 1, open, room, count);
      case Bad(_) =>
      case Opens(k) =>
        TallyGrows(js, p + 1, count + 1);
        if room > 0 {
          TallySuffices(js, p + 1, open + [k], room - 1, count + 1);
        }
      case Closes(k) =>
        if OnTop(k, open) {
          TallySuffices(js, p + 1, Pop(open), room, count);
        }
      case Leaf(_, _, _, next) =>
        TallyGrows(js, next, count + 1);
        if room > 0 {
          TallySuffices(js, next, open, room - 1, count + 1);
        }
    }
  }
}
