/** Character classes and scanning of NUL-terminated text. */
module ParseHelper {

  /** Text up to the terminating NUL. */
  type Text = s: string | '\0' !in s

  predicate IsSpace(c: char) {
    c == ' ' || '\t' <= c <= '\r'
  }

  predicate AllSpaces(t: string) {
    forall c | c in t :: IsSpace(c)
  }

  predicate IsAlpha(c: char) {
    'a' <= c <= 'z' || 'A' <= c <= 'Z'
  }

  predicate IsDigit(c: char) {
    '0' <= c <= '9'
  }

  datatype CharClass = Spaces | AllBut(c: char) | Chars(alpha: bool, num: bool, accept: string) {
    predicate Has(c: char) {
      match this
      case Spaces => IsSpace(c)
      case AllBut(d) => c != d
      case Chars(alpha, num, accept) => (alpha && IsAlpha(c)) || (num && IsDigit(c)) || c in accept
    }
  }

  const KEY_START := Chars(true, false, "")
  const KEY := Chars(true, true, "-")
  const VALUE_START := Chars(true, true, "\"*<")
  const VALUE := Chars(true, true, ".:*[-]")

  /** The classes by their code points: the C locale's isspace, isdigit and isalpha, and what names and bare
      values are made of. */
  lemma ClassCharacters(c: char)
    ensures Spaces.Has(c) <==> c as int == 32 || 9 <= c as int <= 13
    ensures IsDigit(c) <==> 48 <= c as int <= 57
    ensures IsAlpha(c) <==> 65 <= c as int <= 90 || 97 <= c as int <= 122
    ensures KEY_START.Has(c) <==> IsAlpha(c)
    ensures KEY.Has(c) <==> IsAlpha(c) || IsDigit(c) || c == '-'
    ensures VALUE_START.Has(c) <==> IsAlpha(c) || IsDigit(c) || c == '*' || c == '"' || c == '<'
    ensures VALUE.Has(c) <==> IsAlpha(c) || IsDigit(c) || c in {'.', ':', '*', '-', '[', ']'}
  {
  }

  /** The character at p; NUL at the end. */
  function At(s: Text, p: nat): (c: char)
    requires p <= |s|
    ensures c == '\0' <==> p == |s|
  {
    if p < |s| then s[p] else '\0'
  }

  /** The first position from p on whose character is not in the class. */
  function End(s: Text, p: nat, k: CharClass): (r: nat)
    requires p <= |s|
    ensures p <= r <= |s|
    ensures forall i | p <= i < r :: k.Has(s[i])
    ensures r < |s| ==> !k.Has(s[r])
    decreases |s| - p
  {
    if p < |s| && k.Has(s[p]) then End(s, p + 1, k) else p
  }

  lemma EndUnique(s: Text, p: nat, k: CharClass, r: nat)
    requires p <= r <= |s|
    requires forall i | p <= i < r :: k.Has(s[i])
    requires r < |s| ==> !k.Has(s[r])
    ensures End(s, p, k) == r
  {
  }

  method IsOneOf(c: char, accept: Text) returns (found: bool)
    ensures found <==> c in accept
  {
    var i := 0;
    while i < |accept|
      invariant 0 <= i <= |accept| && c !in accept[..i]
    {
      if accept[i] == c {
        return true;
      }
      i := i + 1;
    }
    found := false;
  }

  method SkipWhitespaces(s: Text, p0: nat) returns (p: nat)
    requires p0 <= |s|
    ensures p == End(s, p0, Spaces)
  {
    p := p0;
    while IsSpace(At(s, p))
      invariant p <= |s| && End(s, p, Spaces) == End(s, p0, Spaces)
      decreases |s| - p
    {
      p := p + 1;
    }
  }

  /** Does a token of the class start at the next character that is not white space? */
  method NextTokenStart(s: Text, p0: nat, alpha: bool, num: bool, accept: Text) returns (found: bool, p: nat)
    requires p0 <= |s|
    ensures p == End(s, p0, Spaces)
    ensures found <==> p < |s| && Chars(alpha, num, accept).Has(s[p])
  {
    p := SkipWhitespaces(s, p0);
    var c := At(s, p);
    var accepted := IsOneOf(c, accept);
    found := (alpha && IsAlpha(c)) || (num && IsDigit(c)) || accepted;
  }

  method NextTokenEnd(s: Text, p0: nat, alpha: bool, num: bool, accept: Text) returns (p: nat)
    requires p0 <= |s|
    ensures p == End(s, p0, Chars(alpha, num, accept))
  {
    p := p0;
    while p < |s|
      invariant p <= |s| && End(s, p, Chars(alpha, num, accept)) == End(s, p0, Chars(alpha, num, accept))
      decreases |s| - p
    {
      var accepted := IsOneOf(s[p], accept);
      if (alpha && IsAlpha(s[p])) || (num && IsDigit(s[p])) || accepted {
        p := p + 1;
      } else {
        return;
      }
    }
  }

  /** The C library's strchr; the end of the text stands for "not found". */
  method FindChar(s: Text, p0: nat, c: char) returns (p: nat)
    requires p0 <= |s|
    ensures p == End(s, p0, AllBut(c))
  {
    p := p0;
    while p < |s| && s[p] != c
      invariant p <= |s| && End(s, p, AllBut(c)) == End(s, p0, AllBut(c))
      decreases |s| - p
    {
      p := p + 1;
    }
  }
}
