/** Where the scans of strings and unquoted values in jsmn.h end, in terms of the characters they pass. */
module JsonLexemes {
  import opened JsonScan
  import opened JsonTree

  lemma Prefixed(js: string, p: nat, q: nat, e: nat)
    requires p <= q <= e <= |js|
    ensures js[p..e] == js[p..q] + js[q..e]
    ensures q == p + 1 ==> js[p..q] == [js[p]]
  {
  }

  // ----- unquoted values

  /** A value ends in front of the first delimiter or the end of the text.  The first character that is neither
      printable nor a delimiter is an error. */
  lemma {:induction false} PrimitiveEndIs(js: string, p: nat) returns (e: nat)
    requires p <= |js|
    ensures p <= e <= |js| && Plain(js[p..e])
    ensures PrimitiveEnd(js, p) == (if Limit(js, e) then Closed(e) else Broken(ERROR_INVAL))
    ensures Limit(js, e) || !Plain([js[e]])
    decreases |js| - p
  {
    e := p;
    if !Limit(js, p) {
      PlainOrUnprintable(js[p]);
      if Plain([js[p]]) {
        e := PrimitiveEndIs(js, p + 1);
        Prefixed(js, p, p + 1, e);
        Joined([js[p]], js[p + 1..e]);
      }
    }
  }

  lemma PlainOrUnprintable(c: char)
    requires c !in "\t\r\n ,:]}"
    ensures !Delimits(c) && (Unprintable(c) <==> !Plain([c]))
  {
    assert Plain([c]) <==> 32 < [c][0] as int < 127 && [c][0] !in ",:]}";
  }

  // ----- hexadecimal digits

  /** Up to n digits are passed, fewer where the text ends; another character is an error. */
  lemma {:induction false} HexEndIs(js: string, p: nat, n: nat) returns (e: nat)
    requires p <= |js|
    ensures p <= e <= p + n && e <= |js| && HexDigits(js[p..e])
    ensures e < p + n ==> Ended(js, e) || !HexDigits([js[e]])
    ensures HexEnd(js, p, n) == if e == p + n || Ended(js, e) then Past(e) else NotHex
    decreases n
  {
    e := p;
    if n > 0 && !Ended(js, p) {
      IsHexDigit(js[p]);
      assert HexDigits([js[p]]) <==> [js[p]][0] in "0123456789ABCDEFabcdef";
      if IsHex(js[p]) {
        e := HexEndIs(js, p + 1, n - 1);
        Prefixed(js, p, p + 1, e);
        DigitsJoined([js[p]], js[p + 1..e]);
      }
    }
  }

  lemma DigitsJoined(s: string, t: string)
    requires HexDigits(s) && HexDigits(t)
    ensures HexDigits(s + t)
  {
  }

  // ----- strings

  /** At e a backslash is followed by something that cannot be escaped. */
  ghost predicate BadEscape(js: string, e: nat)
  {
    && e + 1 < |js| && js[e] == '\\' && js[e + 1] !in "\"/\\bfrnt"
    && (js[e + 1] == 'u' ==> exists q :: FailsAt(js, e, q))
  }

  /** Fewer than four digits behind the u, and at q a character that is none. */
  ghost predicate FailsAt(js: string, e: nat, q: nat)
  {
    e + 2 <= q < e + 6 && q < |js| && HexDigits(js[e + 2..q]) && !Ended(js, q) && !HexDigits([js[q]])
  }

  /** At e the text ends, perhaps within an escape. */
  ghost predicate Unfinished(js: string, e: nat)
  {
    || Ended(js, e)
    || (js[e] == '\\' && (e + 1 == |js| || (js[e + 1] == 'u' && exists q :: EndsAt(js, e, q))))
  }

  ghost predicate EndsAt(js: string, e: nat, q: nat)
  {
    e + 2 <= q < e + 6 && q <= |js| && HexDigits(js[e + 2..q]) && Ended(js, q)
  }

  lemma StringCases(js: string, p: nat)
    requires p <= |js|
    ensures Ended(js, p) ==> StringEnd(js, p) == Broken(ERROR_PART)
    ensures !Ended(js, p) && js[p] == '\"' ==> StringEnd(js, p) == Closed(p)
    ensures !Ended(js, p) && js[p] != '\"' && js[p] != '\\' ==> StringEnd(js, p) == StringEnd(js, p + 1)
    ensures !Ended(js, p) && js[p] == '\\' && p + 1 == |js| ==> StringEnd(js, p) == Broken(ERROR_PART)
    ensures !Ended(js, p) && js[p] == '\\' && p + 1 < |js| && js[p + 1] in "\"/\\bfrnt" ==>
      StringEnd(js, p) == StringEnd(js, p + 2)
    ensures !Ended(js, p) && js[p] == '\\' && p + 1 < |js| && js[p + 1] !in "\"/\\bfrnt" && js[p + 1] != 'u' ==>
      StringEnd(js, p) == Broken(ERROR_INVAL)
  {
  }

  /** A string ends at the quote behind a body of JSON.  It is invalid where an escape is, and partial where the text
      ends before the quote. */
  lemma {:induction false} StringEndIs(js: string, p: nat) returns (e: nat)
    requires p <= |js|
    ensures p <= e <= |js| && Body(js[p..e])
    ensures match StringEnd(js, p)
            case Closed(q) => q == e < |js| && js[e] == '\"'
            case Broken(code) =>
              if code == ERROR_INVAL then BadEscape(js, e) else code == ERROR_PART && Unfinished(js, e)
    decreases |js| - p
  {
    hide Body, HexDigits, StringEnd;
    e := p;
    EmptyBody(js[p..p]);
    StringCases(js, p);
    if Ended(js, p) || js[p] == '\"' {
    } else if js[p] != '\\' {
      e := StringEndIs(js, p + 1);
      Prefixed(js, p, p + 1, e);
      OneMore(js[p], js[p + 1..e]);
    } else if p + 1 < |js| && js[p + 1] in "\"/\\bfrnt" {
      e := StringEndIs(js, p + 2);
      Prefixed(js, p, p + 2, e);
      EscapeMore(js[p..p + 2], js[p + 2..e]);
    } else if p + 1 < |js| && js[p + 1] == 'u' {
      e := UnicodeEscape(js, p);
    }
  }

  lemma {:induction false} UnicodeEscape(js: string, p: nat) returns (e: nat)
    requires p + 1 < |js| && js[p] == '\\' && js[p + 1] == 'u'
    ensures p <= e <= |js| && Body(js[p..e])
    ensures match StringEnd(js, p)
            case Closed(q) => q == e < |js| && js[e] == '\"'
            case Broken(code) =>
              if code == ERROR_INVAL then BadEscape(js, e) else code == ERROR_PART && Unfinished(js, e)
    decreases |js| - p, 0
  {
    hide Body, HexDigits;
    e := p;
    EmptyBody(js[p..p]);
    var q := HexEndIs(js, p + 2, 4);
    if q == p + 6 {
      e := StringEndIs(js, q);
      Prefixed(js, p, q, e);
      UnicodeMore(js[p..q], js[q..e], js[p + 2..q]);
    } else if Ended(js, q) {
      assert EndsAt(js, p, q);
      assert StringEnd(js, q) == Broken(ERROR_PART);
    } else {
      assert FailsAt(js, p, q);
    }
  }

  lemma EmptyBody(t: string)
    requires t == ""
    ensures Body(t)
  {
  }

  lemma OneMore(c: char, t: string)
    requires c !in "\\\"\0" && Body(t)
    ensures Body([c] + t)
  {
    assert ([c] + t)[1..] == t;
  }

  lemma EscapeMore(s: string, t: string)
    requires |s| == 2 && s[0] == '\\' && s[1] in "\"/\\bfrnt" && Body(t)
    ensures Body(s + t)
  {
    assert (s + t)[2..] == t;
  }

  lemma UnicodeMore(s: string, t: string, d: string)
    requires |s| == 6 && s[0] == '\\' && s[1] == 'u' && d == s[2..] && HexDigits(d) && Body(t)
    ensures Body(s + t)
  {
    assert (s + t)[6..] == t && (s + t)[2..6] == d;
  }
}
