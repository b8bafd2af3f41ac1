/** The tokenizer of jsmn.h, without JSMN_STRICT and JSMN_PARENT_LINKS. */
module Jsmn {
  import opened JsonScan
  import opened JsonTokens
  import opened JsonRun

  /** One element of the used part of an array was replaced. */
  lemma Replaced(tokens: array<Token>, used: seq<Token>, i: nat)
    requires i < |used| <= tokens.Length && forall k :: 0 <= k < |used| && k != i ==> tokens[k] == used[k]
    ensures tokens[..|used|] == used[i := tokens[i]]
  {
  }

  class Parser {
    var pos: nat
    var toknext: nat
    var toksuper: int
    /** The superior token each token was put under. */
    ghost var parents: seq<int>

    /** jsmn_init */
    constructor ()
      ensures pos == 0 && toknext == 0 && toksuper == -1 && parents == []
    {
      pos, toknext, toksuper, parents := 0, 0, -1, [];
    }

    /** The tokens handed out so far. */
    ghost function Used(tokens: array<Token>): seq<Token>
      requires toknext <= tokens.Length
      reads this, tokens
    {
      tokens[..toknext]
    }

    /** The state of the parser with its tokens. */
    ghost function Now(tokens: array<Token>): State
      requires toknext <= tokens.Length
      reads this, tokens
    {
      State(pos, tokens[..toknext], toksuper, parents)
    }

    /** The same with the character at the position taken. */
    ghost function Ahead(tokens: array<Token>): State
      requires toknext <= tokens.Length
      reads this, tokens
    {
      State(pos + 1, tokens[..toknext], toksuper, parents)
    }

    ghost predicate Valid(js: string, tokens: array<Token>)
      reads this, tokens
    {
      pos <= |js| && -1 <= toksuper < toknext <= tokens.Length
    }

    /** jsmn_alloc_token: an index, or -1. */
    method AllocToken(tokens: array<Token>) returns (i: int)
      requires toknext <= tokens.Length
      modifies this`toknext, tokens
      ensures if old(toknext) == tokens.Length then i == -1 && toknext == old(toknext)
              else i == old(toknext) && toknext == i + 1
                   && tokens[i] == old(tokens[toknext]).(start := -1, end := -1, size := 0)
      ensures forall k :: 0 <= k < tokens.Length && k != i ==> tokens[k] == old(tokens[k])
    {
      if toknext >= tokens.Length {
        return -1;
      }
      i := toknext;
      tokens[i] := tokens[i].(start := -1, end := -1, size := 0);
      toknext := toknext + 1;
    }

    /** jsmn_alloc_token and jsmn_fill_token for a token that is complete; the position goes back when none is left. */
    method PutToken(tokens: array<Token>, kind: Kind, start: int, end: int, back: nat) returns (r: int)
      requires toknext <= tokens.Length
      modifies this`toknext, this`pos, tokens
      ensures toknext <= tokens.Length
      ensures if old(toknext) == tokens.Length
              then r == ERROR_NOMEM && pos == back && toknext == old(toknext) && Used(tokens) == old(Used(tokens))
              else r == 0 && pos == old(pos) && toknext == old(toknext) + 1
                   && Used(tokens) == old(Used(tokens)) + [Token(kind, start, end, 0)]
    {
      ghost var used := tokens[..toknext];
      var i := AllocToken(tokens);
      if i == -1 {
        pos := back;
        assert tokens[..toknext] == used;
        return ERROR_NOMEM;
      }
      tokens[i] := Token(kind, start, end, 0);
      assert tokens[..toknext] == used + [Token(kind, start, end, 0)];
      r := 0;
    }

    /** The loop of jsmn_parse_primitive. */
    method ScanPrimitive(js: string) returns (ok: bool)
      requires pos <= |js|
      modifies this`pos
      ensures match PrimitiveEnd(js, old(pos))
              case Closed(e) => ok && pos == e
              case Broken(code) => !ok && code == ERROR_INVAL
    {
      while pos < |js| && js[pos] != '\0'
        invariant pos <= |js| && PrimitiveEnd(js, pos) == PrimitiveEnd(js, old(pos))
        decreases |js| - pos
      {
        if Delimits(js[pos]) {
          return true;
        }
        if Unprintable(js[pos]) {
          return false;
        }
        pos := pos + 1;
      }
      return true;
    }

    /** jsmn_parse_primitive */
    method ParsePrimitive(js: string, tokens: array?<Token>) returns (r: int)
      requires !Ended(js, pos) && !Delimits(js[pos]) && (tokens != null ==> toknext <= tokens.Length)
      modifies this`pos, this`toknext, tokens
      ensures tokens == null ==> toknext == old(toknext)
      ensures tokens != null ==> toknext <= tokens.Length
      ensures match PrimitiveEnd(js, old(pos))
              case Broken(code) => r == code && pos == old(pos) && toknext == old(toknext)
                                   && (tokens != null ==> Used(tokens) == old(Used(tokens)))
              case Closed(e) =>
                if tokens == null then r == 0 && pos + 1 == e
                else if old(toknext) == tokens.Length
                then r == ERROR_NOMEM && pos == old(pos) && toknext == old(toknext) && Used(tokens) == old(Used(tokens))
                else r == 0 && pos + 1 == e && toknext == old(toknext) + 1
                     && Used(tokens) == old(Used(tokens)) + [Token(Primitive, old(pos), e, 0)]
    {
      var start := pos;
      assert !Unprintable(js[pos]) ==> PrimitiveEnd(js, start) == PrimitiveEnd(js, start + 1);
      var ok := ScanPrimitive(js);
      if !ok {
        pos := start;
        return ERROR_INVAL;
      }
      if tokens == null {
        pos := pos - 1;
        return 0;
      }
      r := PutToken(tokens, Primitive, start, pos, start);
      if r == 0 {
        pos := pos - 1;
      }
    }

    /** Four hexadecimal digits of an escape; the position ends on the last of them. */
    method ScanHex(js: string) returns (ok: bool)
      requires 0 < pos <= |js|
      modifies this`pos
      ensures match HexEnd(js, old(pos), 4)
              case Past(q) => ok && pos + 1 == q
              case NotHex => !ok
    {
      var i := 0;
      while i < 4 && pos < |js| && js[pos] != '\0'
        invariant 0 <= i <= 4 && 0 < pos <= |js| && HexEnd(js, pos, 4 - i) == HexEnd(js, old(pos), 4)
        decreases 4 - i
      {
        if !IsHex(js[pos]) {
          return false;
        }
        pos := pos + 1;
        i := i + 1;
      }
      pos := pos - 1;
      return true;
    }

    /** The loop of jsmn_parse_string, up to the closing quote. */
    method ScanString(js: string) returns (code: int)
      requires pos <= |js|
      modifies this`pos
      ensures match StringEnd(js, old(pos))
              case Closed(e) => code == 0 && pos == e
              case Broken(c) => code == c
    {
      while pos < |js| && js[pos] != '\0'
        invariant pos <= |js| && StringEnd(js, pos) == StringEnd(js, old(pos))
        decreases |js| - pos
      {
        var c := js[pos];
        if c == '\"' {
          return 0;
        }
        if c == '\\' && pos + 1 < |js| {
          pos := pos + 1;
          if js[pos] in "\"/\\bfrnt" {
          } else if js[pos] == 'u' {
            pos := pos + 1;
            var ok := ScanHex(js);
            if !ok {
              return ERROR_INVAL;
            }
          } else {
            return ERROR_INVAL;
          }
        }
        pos := pos + 1;
      }
      return ERROR_PART;
    }

    /** jsmn_parse_string */
    method ParseString(js: string, tokens: array?<Token>) returns (r: int)
      requires pos < |js| && (tokens != null ==> toknext <= tokens.Length)
      modifies this`pos, this`toknext, tokens
      ensures tokens == null ==> toknext == old(toknext)
      ensures tokens != null ==> toknext <= tokens.Length
      ensures match StringEnd(js, old(pos) + 1)
              case Broken(code) => r == code && pos == old(pos) && toknext == old(toknext)
                                   && (tokens != null ==> Used(tokens) == old(Used(tokens)))
              case Closed(e) =>
                if tokens == null then r == 0 && pos == e
                else if old(toknext) == tokens.Length
                then r == ERROR_NOMEM && pos == old(pos) && toknext == old(toknext) && Used(tokens) == old(Used(tokens))
                else r == 0 && pos == e && toknext == old(toknext) + 1
                     && Used(tokens) == old(Used(tokens)) + [Token(String, old(pos) + 1, e, 0)]
    {
      var start := pos;
      pos := pos + 1;
      var code := ScanString(js);
      if code < 0 {
        pos := start;
        return code;
      }
      if tokens == null {
        return 0;
      }
      r := PutToken(tokens, String, start + 1, pos, start);
    }

    /** One more child for the superior token. */
    method AddChild(tokens: array<Token>)
      requires -1 <= toksuper < toknext <= tokens.Length
      modifies tokens
      ensures Used(tokens) == Bump(old(Used(tokens)), toksuper)
    {
      ghost var used := tokens[..toknext];
      if toksuper != -1 {
        tokens[toksuper] := tokens[toksuper].(size := tokens[toksuper].size + 1);
        Replaced(tokens, used, toksuper);
      }
    }

    method OpenBracket(js: string, tokens: array<Token>, kind: Kind) returns (r: int)
      requires Valid(js, tokens)
      modifies this`toknext, this`toksuper, this`parents, tokens
      ensures toknext <= tokens.Length && (r >= 0 ==> toknext == old(toknext) + 1)
      ensures if old(toknext) == tokens.Length then r == ERROR_NOMEM && Now(tokens) == old(Now(tokens))
              else r == 0 && Ahead(tokens) == Added(old(Now(tokens)), Token(kind, pos, -1, 0), pos + 1, old(toknext))
    {
      ghost var used, super := tokens[..toknext], toksuper;
      var i := AllocToken(tokens);
      if i == -1 {
        assert tokens[..toknext] == used;
        return ERROR_NOMEM;
      }
      ghost var blank := tokens[i];
      assert tokens[..toknext] == used + [blank];
      AddChild(tokens);
      tokens[i] := tokens[i].(kind := kind, start := pos);
      toksuper := toknext - 1;
      BumpAppend(used, blank, super);
      BumpAppend(used, Token(kind, pos, -1, 0), super);
      Replaced(tokens, Bump(used + [blank], super), i);
      parents := parents + [super];
      r := 0;
    }

    /** The scan for the last open token below n; -1 when there is none. */
    method LastOpen(tokens: array<Token>, n: nat) returns (i: int)
      requires n <= tokens.Length
      ensures i == Innermost(tokens[..n]) && IsLast(tokens[..n], i)
    {
      i := n - 1;
      while i >= 0
        invariant -1 <= i < n && forall k :: i < k < n ==> !IsOpen(tokens[k])
      {
        if tokens[i].start != -1 && tokens[i].end == -1 {
          break;
        }
        i := i - 1;
      }
      InnermostIs(tokens[..n], i);
    }

    /** The last open token ends here, and the one open before it is superior. */
    method CloseAt(tokens: array<Token>, i: nat)
      requires -1 <= toksuper < toknext <= tokens.Length && IsLast(Used(tokens), i)
      modifies this`toksuper, tokens
      ensures Ahead(tokens) == Ending(old(Now(tokens)), i)
    {
      ghost var used := tokens[..toknext];
      tokens[i] := tokens[i].(end := pos + 1);
      Replaced(tokens, used, i);
      toksuper := LastOpen(tokens, i + 1);
      ghost var us := tokens[..toknext];
      assert forall k :: i < k < |us| ==> us[k] == used[k];
      assert tokens[..i + 1] == us[..i + 1];
      InnermostPrefix(us, i + 1);
    }

    method CloseBracket(js: string, tokens: array<Token>, kind: Kind) returns (r: int)
      requires Valid(js, tokens)
      modifies this`toksuper, tokens
      ensures var i := Innermost(old(Used(tokens)));
        if i == -1 || old(Used(tokens))[i].kind != kind then r == ERROR_INVAL && Now(tokens) == old(Now(tokens))
        else r == 0 && Ahead(tokens) == Ending(old(Now(tokens)), i)
    {
      var i := LastOpen(tokens, toknext);
      if i == -1 || tokens[i].kind != kind {
        return ERROR_INVAL;
      }
      CloseAt(tokens, i);
      r := 0;
    }

    /** The scan behind a comma. */
    method LastContainer(tokens: array<Token>, n: nat) returns (i: int)
      requires n <= tokens.Length
      ensures i == InnermostContainer(tokens[..n])
    {
      i := n - 1;
      while i >= 0
        invariant -1 <= i < n && InnermostContainer(tokens[..i + 1]) == InnermostContainer(tokens[..n])
      {
        if tokens[i].kind == Array || tokens[i].kind == Object {
          if tokens[i].start != -1 && tokens[i].end == -1 {
            return;
          }
        }
        assert tokens[..i + 1][..i] == tokens[..i];
        i := i - 1;
      }
    }

    /** White space, colons and commas. */
    method Separator(js: string, tokens: array<Token>)
      requires !Ended(js, pos) && Valid(js, tokens)
      modifies this`toksuper
      ensures toksuper == AfterSeparator(js[pos], Used(tokens), old(toksuper))
    {
      if js[pos] == ':' {
        toksuper := toknext - 1;
      } else if js[pos] == ',' {
        if toksuper != -1 && tokens[toksuper].kind != Array && tokens[toksuper].kind != Object {
          var i := LastContainer(tokens, toknext);
          if i >= 0 {
            toksuper := i;
          }
        }
      }
    }

    /** A string or an unquoted value. */
    method Leaf(js: string, tokens: array<Token>) returns (r: int)
      requires !Ended(js, pos) && (Lex(js, pos).Leaf? || Lex(js, pos).Bad?) && toknext <= tokens.Length
      modifies this`pos, this`toknext, tokens
      ensures toknext <= tokens.Length
      ensures r < 0 ==> pos == old(pos) && toknext == old(toknext) && Used(tokens) == old(Used(tokens))
      ensures match Lex(js, old(pos))
              case Bad(code) => r == code
              case Leaf(kind, start, end, next) =>
                if old(toknext) == tokens.Length then r == ERROR_NOMEM
                else r == 0 && pos + 1 == next && toknext == old(toknext) + 1
                     && Used(tokens) == old(Used(tokens)) + [Token(kind, start, end, 0)]
              case _ => false
    {
      hide StringEnd, PrimitiveEnd;
      if js[pos] == '\"' {
        r := ParseString(js, tokens);
      } else {
        r := ParsePrimitive(js, tokens);
      }
    }

    /** A string or an unquoted value, with the superior token counting it. */
    method Value(js: string, tokens: array<Token>) returns (r: int)
      requires !Ended(js, pos) && (Lex(js, pos).Leaf? || Lex(js, pos).Bad?) && Valid(js, tokens)
      modifies this`pos, this`toknext, this`parents, tokens
      ensures toknext <= tokens.Length && (r >= 0 ==> toknext == old(toknext) + 1)
      ensures r < 0 ==> Now(tokens) == old(Now(tokens))
      ensures match Lex(js, old(pos))
              case Bad(code) => r == code
              case Leaf(kind, start, end, next) =>
                if old(toknext) == tokens.Length then r == ERROR_NOMEM
                else r == 0 && Ahead(tokens) == Added(old(Now(tokens)), Token(kind, start, end, 0), next, toksuper)
              case _ => false
    {
      hide Lex;
      r := Leaf(js, tokens);
      if r < 0 {
        return;
      }
      AddChild(tokens);
      parents := parents + [toksuper];
    }

    /** The body of the main loop, up to the last character of a lexeme. */
    method Character(js: string, tokens: array<Token>) returns (r: int, n: nat)
      requires !Ended(js, pos) && Valid(js, tokens)
      modifies this, tokens
      ensures toknext <= tokens.Length && (r >= 0 ==> toknext == old(toknext) + n)
      ensures (r, if r < 0 then Now(tokens) else Ahead(tokens)) == Step(js, old(Now(tokens)), tokens.Length)
    {
      hide StringEnd, PrimitiveEnd, Innermost, Added, Ending, AfterSeparator;
      r, n := 0, 0;
      var c := js[pos];
      if c == '{' || c == '[' {
        n := 1;
        r := OpenBracket(js, tokens, if c == '{' then Object else Array);
      } else if c == '}' || c == ']' {
        r := CloseBracket(js, tokens, if c == '}' then Object else Array);
      } else if c in "\t\r\n :," {
        Separator(js, tokens);
      } else {
        r := Value(js, tokens);
        n := 1;
      }
    }

    /** The check behind the main loop. */
    method AllClosed(tokens: array<Token>) returns (ok: bool)
      requires toknext <= tokens.Length
      ensures ok <==> Innermost(Used(tokens)) == -1
    {
      var i := LastOpen(tokens, toknext);
      ok := i == -1;
    }

    /** jsmn_parse over an array of tokens.  It starts where an earlier call stopped. */
    method Parse(js: string, tokens: array<Token>) returns (r: int)
      requires Valid(js, tokens)
      modifies this, tokens
      ensures Valid(js, tokens)
      ensures (r, Now(tokens)) == Run(js, old(Now(tokens)), tokens.Length)
    {
      var count := toknext;
      ghost var start := Now(tokens);
      while pos < |js| && js[pos] != '\0'
        invariant Valid(js, tokens) && count == toknext
        invariant Run(js, Now(tokens), tokens.Length) == Run(js, start, tokens.Length)
        decreases |js| - pos
      {
        ghost var s := Now(tokens);
        StepGrows(js, s, tokens.Length);
        hide Step;
        var code, n := Character(js, tokens);
        if code < 0 {
          return code;
        }
        count := count + n;
        pos := pos + 1;
      }
      var closed := AllClosed(tokens);
      return if closed then count else ERROR_PART;
    }

    /** jsmn_parse without an array of tokens. */
    method Count(js: string) returns (r: int)
      requires pos <= |js|
      modifies this`pos, this`toksuper, this`toknext
      ensures r == Tally(js, old(pos), old(toknext)) && toknext == old(toknext)
    {
      var count := toknext;
      while pos < |js| && js[pos] != '\0'
        invariant pos <= |js| && toknext == old(toknext) && Tally(js, pos, count) == Tally(js, old(pos), old(toknext))
        decreases |js| - pos
      {
        var c := js[pos];
        if c == '{' || c == '[' {
          count := count + 1;
        } else if c == '}' || c == ']' || c in "\t\r\n ," {
        } else if c == ':' {
          toksuper := toknext - 1;
        } else {
          var code;
          if c == '\"' {
            code := ParseString(js, null);
          } else {
            code := ParsePrimitive(js, null);
          }
          if code < 0 {
            return code;
          }
          count := count + 1;
        }
        pos := pos + 1;
      }
      return count;
    }
  }
}
