/**
 `String.prototype.trim`, which the text maker applies before drawing: it strips
 the ECMAScript WhiteSpace and LineTerminator characters from both ends.
 */
module Text {

  /** TAB, VT, FF, ZWNBSP, the space separators (category Zs) and the line terminators. */
  predicate IsJsWhitespace(c: char) {
    || c == '\t' || c == '\U{000B}' || c == '\U{000C}' || c == '\U{FEFF}'
    || c == ' ' || c == '\U{00A0}' || c == '\U{1680}'
    || ('\U{2000}' <= c <= '\U{200A}')
    || c == '\U{202F}' || c == '\U{205F}' || c == '\U{3000}'
    || c == '\n' || c == '\r' || c == '\U{2028}' || c == '\U{2029}'
  }

  ghost predicate AllWhitespace(s: string) {
    forall i :: 0 <= i < |s| ==> IsJsWhitespace(s[i])
  }

  function TrimStart(s: string): string {
    if s != [] && IsJsWhitespace(s[0]) then TrimStart(s[1..]) else s
  }

  function TrimEnd(s: string): string {
    if s != [] && IsJsWhitespace(s[|s| - 1]) then TrimEnd(s[..|s| - 1]) else s
  }

  function Trim(s: string): string {
    TrimEnd(TrimStart(s))
  }

  lemma {:induction false} TrimStartSpec(s: string)
    ensures exists lead :: AllWhitespace(lead) && s == lead + TrimStart(s)
    ensures TrimStart(s) != [] ==> !IsJsWhitespace(TrimStart(s)[0])
  {
    if s != [] && IsJsWhitespace(s[0]) {
      TrimStartSpec(s[1..]);
      var lead :| AllWhitespace(lead) && s[1..] == lead + TrimStart(s[1..]);
      assert s == [s[0]] + lead + TrimStart(s);
      assert AllWhitespace([s[0]] + lead);
    } else {
      assert AllWhitespace([]) && s == [] + s;
    }
  }

  lemma {:induction false} TrimEndSpec(s: string)
    ensures exists trail :: AllWhitespace(trail) && s == TrimEnd(s) + trail
    ensures TrimEnd(s) != [] ==> !IsJsWhitespace(TrimEnd(s)[|TrimEnd(s)| - 1])
  {
    if s != [] && IsJsWhitespace(s[|s| - 1]) {
      TrimEndSpec(s[..|s| - 1]);
      var trail :| AllWhitespace(trail) && s[..|s| - 1] == TrimEnd(s[..|s| - 1]) + trail;
      assert s == TrimEnd(s) + (trail + [s[|s| - 1]]);
      assert AllWhitespace(trail + [s[|s| - 1]]);
    } else {
      assert AllWhitespace([]) && s == s + [];
    }
  }

  /** The trimmed text is what lies between a whitespace-only prefix and a
      whitespace-only suffix of the input, and it neither starts nor ends with
      whitespace. */
  lemma TrimSpec(s: string)
    ensures exists lead, trail :: AllWhitespace(lead) && AllWhitespace(trail) && s == lead + Trim(s) + trail
    ensures Trim(s) != [] ==> !IsJsWhitespace(Trim(s)[0]) && !IsJsWhitespace(Trim(s)[|Trim(s)| - 1])
  {
    TrimStartSpec(s);
    var lead :| AllWhitespace(lead) && s == lead + TrimStart(s);
    TrimEndSpec(TrimStart(s));
    var trail :| AllWhitespace(trail) && TrimStart(s) == Trim(s) + trail;
    assert s == lead + Trim(s) + trail;
    if Trim(s) != [] {
      var t := TrimStart(s);
      assert t[0] == Trim(s)[0];
    }
  }

  /** The text maker refuses exactly the texts made only of whitespace (the empty text
      among them). */
  lemma TrimEmptyIff(s: string)
    ensures Trim(s) == [] <==> AllWhitespace(s)
  {
    TrimSpec(s);
    var lead, trail :| AllWhitespace(lead) && AllWhitespace(trail) && s == lead + Trim(s) + trail;
    if Trim(s) != [] {
      assert s[|lead|] == Trim(s)[0];
      assert !IsJsWhitespace(s[|lead|]);
    }
    if Trim(s) == [] {
      assert s == lead + trail;
    }
  }

  /** Trimming twice trims nothing more. */
  lemma TrimIdempotent(s: string)
    ensures Trim(Trim(s)) == Trim(s)
  {
    TrimSpec(s);
    var t := Trim(s);
    if t != [] {
      assert TrimStart(t) == t;
      assert TrimEnd(t) == t;
    }
  }
}
