/** The parameter list of an instruction: parser against grammar. */
module Parameters {
  import opened ParseHelper

  datatype Parameter = Parameter(name: string, value: string, valueAt: nat, index: nat)

  /** What a parameter without a value gets. */
  const BOOL_VALUE: string := "01"

  // ------------------------------------------------------------------------------------------
  // What the parser does, position by position
  // ------------------------------------------------------------------------------------------

  datatype Step = Item(parameter: Parameter, next: nat) | SyntaxError(at: nat)

  predicate EndsItem(c: char) {
    c == ',' || c == ')'
  }

  /** The value that starts behind the equals sign at position c; next is its end. */
  function ScanValue(s: Text, name: string, index: nat, c: nat): (r: Step)
    requires c < |s|
    ensures r.Item? ==> c < r.next <= |s|
    ensures r.SyntaxError? ==> c < r.at <= |s|
  {
    var d := End(s, c + 1, Spaces);
    if d == |s| || !VALUE_START.Has(s[d]) then SyntaxError(c + 1)
    else if s[d] == '"' || s[d] == '<' then
      var close := End(s, d + 1, AllBut(if s[d] == '"' then '"' else '>'));
      if close == |s| then SyntaxError(d + 1)
      else Item(Parameter(name, s[d..close + 1], d, index), close + 1)
    else
      var e := End(s, d, VALUE);
      Item(Parameter(name, s[d..e], d, index), e)
  }

  /** One parameter; next is the end of its value. */
  function ScanItem(s: Text, p: nat, index: nat): (r: Step)
    requires p <= |s|
    ensures r.Item? ==> p < r.next <= |s|
    ensures r.SyntaxError? ==> p <= r.at <= |s|
  {
    var a := End(s, p, Spaces);
    if a == |s| || !KEY_START.Has(s[a]) then SyntaxError(p)
    else
      var b := End(s, a, KEY);
      var c := End(s, b, Spaces);
      if EndsItem(At(s, c)) then Item(Parameter(s[a..b], BOOL_VALUE, 0, index), c)
      else if At(s, c) != '=' then SyntaxError(c)
      else ScanValue(s, s[a..b], index, c)
  }

  /** The parameters read, where reading ended, and whether that is the closing parenthesis. */
  datatype Outcome = Outcome(parameters: seq<Parameter>, at: nat, ok: bool)

  function ScanItems(s: Text, p: nat, before: seq<Parameter>): (r: Outcome)
    requires p <= |s|
    ensures p <= r.at <= |s| && (r.ok ==> r.at < |s| && s[r.at] == ')')
    decreases |s| - p
  {
    if p == |s| then Outcome(before, p, false)
    else if s[p] == ')' then Outcome(before, p, true)
    else
      var i := ScanItem(s, p, |before|);
      if i.SyntaxError? then Outcome(before, i.at, false)
      else
        var f := End(s, i.next, Spaces);
        if !EndsItem(At(s, f)) then Outcome(before + [i.parameter], f, false)
        else ScanItems(s, if s[f] == ',' then f + 1 else f, before + [i.parameter])
  }

  function Scan(s: Text, from: nat, ignoreTrailingGarbage: bool): (r: Outcome)
    requires from < |s| && s[from] == '('
    ensures from < r.at <= |s|
  {
    var r := ScanItems(s, from + 1, []);
    if !r.ok || ignoreTrailingGarbage then r
    else
      var q := End(s, r.at + 1, Spaces);
      if q == |s| then r else Outcome(r.parameters, q, false)
  }

  // ------------------------------------------------------------------------------------------
  // The grammar
  // ------------------------------------------------------------------------------------------

  predicate LegalName(t: string) {
    t != "" && KEY_START.Has(t[0]) && forall c | c in t :: KEY.Has(c)
  }

  predicate Enclosed(t: string, open: char, close: char) {
    |t| >= 2 && t[0] == open && t[|t| - 1] == close && close !in t[1..|t| - 1]
  }

  predicate LegalBare(t: string) {
    t != "" && (IsAlpha(t[0]) || IsDigit(t[0]) || t[0] == '*') && forall c | c in t :: VALUE.Has(c)
  }

  /** A bare word, a quoted string or an embedded packet. */
  predicate LegalValue(t: string) {
    LegalBare(t) || Enclosed(t, '"', '"') || Enclosed(t, '<', '>')
  }

  /** One parameter as written, with the white space around its parts. */
  datatype Written = Flag(lead: string, name: string, afterName: string)
                   | Pair(lead: string, name: string, afterName: string, beforeValue: string, value: string, trail: string)
  {
    predicate Legal() {
      && AllSpaces(lead) && LegalName(name) && AllSpaces(afterName) && '\0' !in Text()
      && (Pair? ==> AllSpaces(beforeValue) && LegalValue(value) && AllSpaces(trail))
    }

    function Text(): string {
      if Flag? then lead + name + afterName
      else lead + name + afterName + "=" + beforeValue + value + trail
    }

    /** What it means when it stands at position at. */
    function Meaning(at: nat, index: nat): Parameter {
      if Flag? then Parameter(name, "01", 0, index)
      else Parameter(name, value, at + |lead| + |name| + |afterName| + 1 + |beforeValue|, index)
    }
  }

  predicate AllLegal(items: seq<Written>) {
    forall w | w in items :: w.Legal()
  }

  /** What follows the opening parenthesis: the parameters, separated by commas; a comma may also stand
      behind the last one. */
  function Print(items: seq<Written>, trailingComma: bool): string {
    if items == [] then ")"
    else items[0].Text() + if |items| == 1 && !trailingComma then ")" else "," + Print(items[1..], trailingComma)
  }

  function Meanings(items: seq<Written>, at: nat, index: nat): seq<Parameter> {
    if items == [] then []
    else [items[0].Meaning(at, index)] + Meanings(items[1..], at + |items[0].Text()| + 1, index + 1)
  }

  // ------------------------------------------------------------------------------------------
  // Every printed list is read back
  // ------------------------------------------------------------------------------------------

  predicate Occurs(s: string, p: nat, t: string) {
    p + |t| <= |s| && s[p..p + |t|] == t
  }

  lemma OccursSplit(s: string, p: nat, t: string, u: string)
    ensures Occurs(s, p, t + u) <==> Occurs(s, p, t) && Occurs(s, p + |t|, u)
  {
    if Occurs(s, p, t + u) {
      assert s[p..p + |t|] == s[p..p + |t + u|][..|t|];
      assert s[p + |t|..p + |t| + |u|] == s[p..p + |t + u|][|t|..];
    }
  }

  /** A run of characters of a class, followed by something else. */
  lemma EndOfRun(s: Text, p: nat, t: string, k: CharClass)
    requires Occurs(s, p, t) && forall c | c in t :: k.Has(c)
    requires p + |t| < |s| ==> !k.Has(s[p + |t|])
    ensures End(s, p, k) == p + |t|
  {
    forall i | p <= i < p + |t|
      ensures k.Has(s[i])
    {
      assert s[i] == t[i - p];
    }
    EndUnique(s, p, k, p + |t|);
  }

  lemma OccursAt(s: string, p: nat, t: string)
    requires Occurs(s, p, t)
    ensures p + |t| <= |s| && s[p..p + |t|] == t
    ensures t != "" ==> s[p] == t[0]
  {
  }

  /** A quoted or bracketed text ends at the next closing character. */
  lemma EnclosedEnds(s: Text, d: nat, t: string, open: char, close: char)
    requires Occurs(s, d, t) && Enclosed(t, open, close)
    ensures End(s, d + 1, AllBut(close)) == d + |t| - 1 < |s|
  {
    hide End;
    var inner := t[1..|t| - 1];
    assert t == [open] + inner + [close];
    OccursSplit(s, d, [open] + inner, [close]);
    OccursSplit(s, d, [open], inner);
    EndOfRun(s, d + 1, inner, AllBut(close));
  }

  lemma PrintedValueEnds(s: Text, d: nat, value: string)
    requires LegalValue(value) && Occurs(s, d, value)
    requires var e := d + |value|; e < |s| && (IsSpace(s[e]) || EndsItem(s[e]))
    ensures VALUE_START.Has(s[d]) && !IsSpace(s[d]) && s[d..d + |value|] == value != ""
    ensures if s[d] == '"' then End(s, d + 1, AllBut('"')) == d + |value| - 1
            else if s[d] == '<' then End(s, d + 1, AllBut('>')) == d + |value| - 1
            else End(s, d, VALUE) == d + |value|
  {
    hide End, Enclosed, Occurs;
    OccursAt(s, d, value);
    ValueStart(value);
    if LegalBare(value) {
      EndOfRun(s, d, value, VALUE);
    } else if Enclosed(value, '"', '"') {
      EnclosedEnds(s, d, value, '"', '"');
    } else {
      EnclosedEnds(s, d, value, '<', '>');
    }
  }

  lemma ScanPrintedValue(s: Text, name: string, index: nat, c: nat, lead: string, value: string)
    requires AllSpaces(lead) && LegalValue(value) && c < |s|
    requires Occurs(s, c + 1, lead) && Occurs(s, c + 1 + |lead|, value)
    requires var e := c + 1 + |lead| + |value|; e < |s| && (IsSpace(s[e]) || EndsItem(s[e]))
    ensures var d := c + 1 + |lead|;
            ScanValue(s, name, index, c) == Item(Parameter(name, value, d, index), d + |value|)
  {
    hide End, Occurs, LegalValue, CharClass.Has, VALUE_START, VALUE;
    var d := c + 1 + |lead|;
    PrintedValueEnds(s, d, value);
    EndOfSpaces(s, c + 1, lead);
  }

  lemma ValueStart(value: string)
    requires LegalValue(value)
    ensures value != "" && VALUE_START.Has(value[0]) && !IsSpace(value[0])
    ensures Enclosed(value, '"', '"') ==> value[0] == '"'
    ensures Enclosed(value, '<', '>') ==> value[0] == '<'
    ensures LegalBare(value) ==> value[0] != '"' && value[0] != '<'
  {
  }

  /** Where the parts of a printed parameter stand. */
  lemma PartsOccur(s: Text, p: nat, w: Written)
    requires Occurs(s, p, w.Text())
    ensures var a := p + |w.lead|;
            var b := a + |w.name|;
            var c := b + |w.afterName|;
            && Occurs(s, p, w.lead) && Occurs(s, a, w.name) && Occurs(s, b, w.afterName)
            && (w.Pair? ==> var d := c + 1 + |w.beforeValue|;
                  Occurs(s, c, "=") && Occurs(s, c + 1, w.beforeValue)
                  && Occurs(s, d, w.value) && Occurs(s, d + |w.value|, w.trail))
  {
    hide Occurs;
    var t := w.lead + w.name + w.afterName;
    if w.Pair? {
      OccursSplit(s, p, t + "=" + w.beforeValue + w.value, w.trail);
      OccursSplit(s, p, t + "=" + w.beforeValue, w.value);
      OccursSplit(s, p, t + "=", w.beforeValue);
      OccursSplit(s, p, t, "=");
    }
    OccursSplit(s, p, w.lead + w.name, w.afterName);
    OccursSplit(s, p, w.lead, w.name);
  }

  /** The end of white space that is followed by something legal. */
  lemma EndOfSpaces(s: Text, p: nat, t: string)
    requires Occurs(s, p, t) && AllSpaces(t)
    requires p + |t| < |s| && !IsSpace(s[p + |t|])
    ensures End(s, p, Spaces) == p + |t|
    ensures IsSpace(s[p]) || p == p + |t|
  {
    hide End;
    EndOfRun(s, p, t, Spaces);
    if t != "" {
      assert t[0] in t && s[p] == t[0];
    }
  }

  lemma ScanPrintedName(s: Text, p: nat, lead: string, name: string, after: string)
    requires AllSpaces(lead) && LegalName(name) && AllSpaces(after)
    requires var a := p + |lead|; Occurs(s, p, lead) && Occurs(s, a, name) && Occurs(s, a + |name|, after)
    requires var c := p + |lead| + |name| + |after|; c < |s| && (s[c] in "=(" || EndsItem(s[c]))
    ensures var a := p + |lead|;
            var b := a + |name|;
            && End(s, p, Spaces) == a && a < b <= |s| && KEY_START.Has(s[a]) && End(s, a, KEY) == b && s[a..b] == name
            && End(s, b, Spaces) == b + |after|
  {
    hide End, Occurs;
    var a := p + |lead|;
    OccursAt(s, a, name);
    EndOfSpaces(s, a + |name|, after);
    EndOfSpaces(s, p, lead);
    EndOfRun(s, a, name, KEY);
  }

  lemma WrittenParts(w: Written)
    requires w.Legal()
    ensures AllSpaces(w.lead) && LegalName(w.name) && AllSpaces(w.afterName)
    ensures w.Pair? ==> AllSpaces(w.beforeValue) && LegalValue(w.value) && AllSpaces(w.trail)
    ensures |w.Text()| == |w.lead| + |w.name| + |w.afterName|
                          + if w.Pair? then 1 + |w.beforeValue| + |w.value| + |w.trail| else 0
  {
  }

  lemma ScanPrintedItem(s: Text, p: nat, w: Written, index: nat)
    requires w.Legal() && Occurs(s, p, w.Text())
    requires p + |w.Text()| < |s| && EndsItem(s[p + |w.Text()|])
    ensures var r := ScanItem(s, p, index);
            r.Item? && r.parameter == w.Meaning(p, index) && End(s, r.next, Spaces) == p + |w.Text()|
  {
    hide *;
    WrittenParts(w);
    PartsOccur(s, p, w);
    var c := p + |w.lead| + |w.name| + |w.afterName|;
    if w.Pair? {
      OccursAt(s, c, "=");
      PairValueEnds(s, c, w);
      ScanPrintedName(s, p, w.lead, w.name, w.afterName);
      ScanPrintedValue(s, w.name, index, c, w.beforeValue, w.value);
      ScanPair(s, p, w, index);
    } else {
      ScanPrintedName(s, p, w.lead, w.name, w.afterName);
      ScanFlag(s, p, w, index);
    }
  }

  lemma ScanFlag(s: Text, p: nat, w: Written, index: nat)
    requires w.Flag? && p <= |s|
    requires var a := p + |w.lead|;
             var b := a + |w.name|;
             && End(s, p, Spaces) == a && a < b <= |s| && KEY_START.Has(s[a]) && End(s, a, KEY) == b && s[a..b] == w.name
             && End(s, b, Spaces) == b + |w.afterName| < |s| && EndsItem(s[b + |w.afterName|])
    ensures var c := p + |w.lead| + |w.name| + |w.afterName|;
            ScanItem(s, p, index) == Item(w.Meaning(p, index), c) && End(s, c, Spaces) == c
  {
    hide End, KEY_START, KEY;
    var c := p + |w.lead| + |w.name| + |w.afterName|;
    EndUnique(s, c, Spaces, c);
  }

  lemma ScanPair(s: Text, p: nat, w: Written, index: nat)
    requires w.Pair? && p <= |s|
    requires var a := p + |w.lead|;
             var b := a + |w.name|;
             var c := b + |w.afterName|;
             var d := c + 1 + |w.beforeValue|;
             && End(s, p, Spaces) == a && a < b <= |s| && KEY_START.Has(s[a]) && End(s, a, KEY) == b && s[a..b] == w.name
             && End(s, b, Spaces) == c < |s| && s[c] == '='
             && ScanValue(s, w.name, index, c) == Item(Parameter(w.name, w.value, d, index), d + |w.value|)
    ensures ScanItem(s, p, index) == ScanValue(s, w.name, index, p + |w.lead| + |w.name| + |w.afterName|)
    ensures ScanItem(s, p, index).parameter == w.Meaning(p, index)
  {
    hide End, ScanValue, KEY_START, KEY;
  }

  lemma PairValueEnds(s: Text, c: nat, w: Written)
    requires w.Pair? && AllSpaces(w.trail)
    requires var e := c + 1 + |w.beforeValue| + |w.value|;
             Occurs(s, e, w.trail) && e + |w.trail| < |s| && EndsItem(s[e + |w.trail|])
    ensures var e := c + 1 + |w.beforeValue| + |w.value|;
            End(s, e, Spaces) == e + |w.trail| && (IsSpace(s[e]) || EndsItem(s[e]))
  {
    hide End;
    EndOfSpaces(s, c + 1 + |w.beforeValue| + |w.value|, w.trail);
  }

  lemma FirstCharacter(w: Written)
    requires w.Legal()
    ensures w.Text() != "" && w.Text()[0] != ')'
  {
    if w.lead == "" {
      assert w.Text()[0] == w.name[0];
    } else {
      assert w.Text()[0] == w.lead[0] && w.lead[0] in w.lead;
    }
  }

  /** The loop takes one printed parameter with the comma behind it. */
  lemma ScanOnePrinted(s: Text, p: nat, before: seq<Parameter>, w: Written)
    requires w.Legal() && Occurs(s, p, w.Text())
    requires p + |w.Text()| < |s| && EndsItem(s[p + |w.Text()|])
    ensures var f := p + |w.Text()|;
            ScanItems(s, p, before) == ScanItems(s, if s[f] == ',' then f + 1 else f, before + [w.Meaning(p, |before|)])
  {
    hide ScanItem, Occurs, Written.Legal, Written.Text, End;
    ScanPrintedItem(s, p, w, |before|);
    FirstCharacter(w);
    OccursAt(s, p, w.Text());
  }

  /** Whatever stands in front of and behind a printed list, its parameters are read back. */
  lemma {:induction false} ScanPrinted(s: Text, p: nat, before: seq<Parameter>, items: seq<Written>, trailingComma: bool)
    requires AllLegal(items) && Occurs(s, p, Print(items, trailingComma))
    ensures ScanItems(s, p, before)
            == Outcome(before + Meanings(items, p, |before|), p + |Print(items, trailingComma)| - 1, true)
    decreases |items|
  {
    hide ScanItems, Occurs, Written.Legal, Written.Text, Written.Meaning, Print, Meanings;
    if items == [] {
      PrintPrepends(Flag("", "", ""), [], trailingComma);
      OccursAt(s, p, ")");
      ScanClosing(s, p, before);
      MeaningsPrepend(Flag("", "", ""), [], p, |before|);
      assert before + [] == before;
    } else {
      var w, rest := items[0], items[1..];
      assert items == [w] + rest;
      var f := p + |w.Text()|;
      var next := before + [w.Meaning(p, |before|)];
      PrintPrepends(w, rest, trailingComma);
      MeaningsPrepend(w, rest, p, |before|);
      if |items| == 1 && !trailingComma {
        assert items == [w];
        OccursSplit(s, p, w.Text(), ")");
        OccursAt(s, f, ")");
        ScanOnePrinted(s, p, before, w);
        ScanClosing(s, f, next);
      } else {
        var text := Print(rest, trailingComma);
        OccursSplit(s, p, w.Text(), "," + text);
        OccursSplit(s, f, ",", text);
        OccursAt(s, f, ",");
        ScanOnePrinted(s, p, before, w);
        ScanPrinted(s, f + 1, next, rest, trailingComma);
        assert next + Meanings(rest, f + 1, |next|) == before + Meanings(items, p, |before|);
      }
    }
  }

  lemma MeaningsPrepend(w: Written, items: seq<Written>, at: nat, index: nat)
    ensures Meanings([], at, index) == []
    ensures Meanings([w] + items, at, index) == [w.Meaning(at, index)] + Meanings(items, at + |w.Text()| + 1, index + 1)
    ensures items == [] ==> Meanings([w] + items, at, index) == [w.Meaning(at, index)]
  {
    assert ([w] + items)[1..] == items;
  }

  lemma ScanClosing(s: Text, p: nat, before: seq<Parameter>)
    requires p < |s| && s[p] == ')'
    ensures ScanItems(s, p, before) == Outcome(before, p, true)
  {
  }

  /** A printed list is parsed to what it means, whatever follows it or, if nothing may follow, with white
      space behind it. */
  lemma PrintedIsParsed(s: Text, from: nat, items: seq<Written>, trailingComma: bool, rest: string, ignoreTrailingGarbage: bool)
    requires from < |s| && s[from] == '(' && AllLegal(items)
    requires s[from + 1..] == Print(items, trailingComma) + rest
    requires ignoreTrailingGarbage || AllSpaces(rest)
    ensures Scan(s, from, ignoreTrailingGarbage)
            == Outcome(Meanings(items, from + 1, 0), from + |Print(items, trailingComma)|, true)
  {
    hide ScanItems, Print, Meanings, End;
    var text := Print(items, trailingComma);
    assert s[from + 1..from + 1 + |text|] == s[from + 1..][..|text|] == text;
    ScanPrinted(s, from + 1, [], items, trailingComma);
    assert [] + Meanings(items, from + 1, 0) == Meanings(items, from + 1, 0);
    if !ignoreTrailingGarbage {
      assert s[from + 1 + |text|..] == rest;
      EndOfRun(s, from + 1 + |text|, rest, Spaces);
    }
  }

  // ------------------------------------------------------------------------------------------
  // Everything that is accepted is a printed list
  // ------------------------------------------------------------------------------------------

  lemma RunInClass(s: Text, p: nat, k: CharClass)
    requires p <= |s|
    ensures forall c | c in s[p..End(s, p, k)] :: k.Has(c)
  {
  }

  lemma ScannedValueIsLegal(s: Text, name: string, index: nat, c: nat)
    requires c < |s| && ScanValue(s, name, index, c).Item?
    ensures var v := ScanValue(s, name, index, c);
            var d := End(s, c + 1, Spaces);
            && d < v.next <= |s| && v.parameter == Parameter(name, s[d..v.next], d, index)
            && LegalValue(s[d..v.next])
  {
    hide End;
    var d := End(s, c + 1, Spaces);
    var v := ScanValue(s, name, index, c);
    var t := s[d..v.next];
    if s[d] == '"' || s[d] == '<' {
      var quote := if s[d] == '"' then '"' else '>';
      assert t[1..|t| - 1] == s[d + 1..v.next - 1];
      RunInClass(s, d + 1, AllBut(quote));
      assert Enclosed(t, s[d], quote);
    } else {
      RunInClass(s, d, VALUE);
      StartIsInside(s, d);
    }
  }

  /** A bare value has at least one character. */
  lemma StartIsInside(s: Text, d: nat)
    requires d < |s| && VALUE_START.Has(s[d]) && s[d] != '"' && s[d] != '<'
    ensures End(s, d, VALUE) > d
  {
  }

  lemma NameNotEmpty(s: Text, a: nat)
    requires a < |s| && KEY_START.Has(s[a])
    ensures a < End(s, a, KEY) && LegalName(s[a..End(s, a, KEY)])
  {
    RunInClass(s, a, KEY);
  }

  lemma SpacesSkipped(s: Text, p: nat)
    requires p <= |s|
    ensures AllSpaces(s[p..End(s, p, Spaces)])
  {
  }

  lemma Slices(s: Text, p: nat, a: nat, b: nat, c: nat)
    requires p <= a <= b <= c <= |s|
    ensures s[p..a] + s[a..b] + s[b..c] == s[p..c]
  {
  }

  lemma NoNul(s: Text, p: nat, f: nat)
    requires p <= f <= |s|
    ensures '\0' !in s[p..f]
  {
  }

  /** The parts a scanned parameter was written in. */
  lemma ScannedItemIsWritten(s: Text, p: nat, index: nat) returns (w: Written)
    requires p <= |s| && ScanItem(s, p, index).Item?
    ensures var i := ScanItem(s, p, index);
            w.Legal() && w.Text() == s[p..End(s, i.next, Spaces)] && w.Meaning(p, index) == i.parameter
  {
    hide End, ScanValue, KEY, KEY_START, CharClass.Has, LegalName, LegalValue, AllSpaces;
    var a := End(s, p, Spaces);
    var b := End(s, a, KEY);
    var c := End(s, b, Spaces);
    SpacesSkipped(s, p);
    NameNotEmpty(s, a);
    SpacesSkipped(s, b);
    Slices(s, p, a, b, c);
    NoNul(s, p, End(s, ScanItem(s, p, index).next, Spaces));
    if EndsItem(At(s, c)) {
      FlagEnds(s, c);
      w := Flag(s[p..a], s[a..b], s[b..c]);
    } else {
      w := ScannedPairIsWritten(s, p, a, b, c, index);
    }
  }

  lemma ScannedPairIsWritten(s: Text, p: nat, a: nat, b: nat, c: nat, index: nat) returns (w: Written)
    requires p <= a < b <= c < |s| && s[c] == '='
    requires AllSpaces(s[p..a]) && LegalName(s[a..b]) && AllSpaces(s[b..c]) && ScanValue(s, s[a..b], index, c).Item?
    ensures var i := ScanValue(s, s[a..b], index, c);
            w.Legal() && w.Text() == s[p..End(s, i.next, Spaces)] && w.Meaning(p, index) == i.parameter
  {
    hide End, ScanValue, CharClass.Has, LegalName, LegalValue, AllSpaces;
    var d := End(s, c + 1, Spaces);
    var e := ScanValue(s, s[a..b], index, c).next;
    var f := End(s, e, Spaces);
    ScannedValueIsLegal(s, s[a..b], index, c);
    SpacesSkipped(s, c + 1);
    SpacesSkipped(s, e);
    w := Pair(s[p..a], s[a..b], s[b..c], s[c + 1..d], s[d..e], s[e..f]);
    NoNul(s, p, f);
    SevenSlices(s, p, a, b, c, d, e, f);
  }

  lemma SevenSlices(s: Text, p: nat, a: nat, b: nat, c: nat, d: nat, e: nat, f: nat)
    requires p <= a <= b <= c < d <= e <= f <= |s| && s[c] == '='
    ensures s[p..a] + s[a..b] + s[b..c] + "=" + s[c + 1..d] + s[d..e] + s[e..f] == s[p..f]
  {
    Slices(s, p, a, b, c);
    assert s[p..c] + "=" == s[p..c + 1];
    Slices(s, p, c + 1, d, e);
    assert s[p..e] + s[e..f] == s[p..f];
  }

  lemma FlagEnds(s: Text, c: nat)
    requires c <= |s| && EndsItem(At(s, c))
    ensures End(s, c, Spaces) == c
  {
  }

  lemma PrintPrepends(w: Written, items: seq<Written>, trailingComma: bool)
    ensures Print([], trailingComma) == ")" && Print([w], false) == w.Text() + ")"
    ensures Print([w] + items, trailingComma || items == []) == w.Text() + ("," + Print(items, trailingComma))
  {
    assert ([w] + items)[1..] == items;
  }

  /** Every accepted list is a printed one, and means what is read. */
  lemma {:induction false} ScannedIsPrinted(s: Text, p: nat, before: seq<Parameter>)
    returns (items: seq<Written>, trailingComma: bool)
    requires p <= |s| && ScanItems(s, p, before).ok
    ensures AllLegal(items) && Occurs(s, p, Print(items, trailingComma))
    decreases |s| - p
  {
    hide End, ScanItem, Written.Legal, Written.Text, Print, Occurs;
    if s[p] == ')' {
      items, trailingComma := [], false;
      PrintPrepends(Flag("", "", ""), [], false);
      CharacterOccurs(s, p);
    } else {
      var i := ScanItem(s, p, |before|);
      var f := End(s, i.next, Spaces);
      var w := ScannedItemIsWritten(s, p, |before|);
      SliceOccurs(s, p, f);
      CharacterOccurs(s, f);
      if s[f] == ')' {
        items, trailingComma := [w], false;
        PrintPrepends(w, [], false);
        OccursSplit(s, p, w.Text(), ")");
      } else {
        var rest, tc := ScannedIsPrinted(s, f + 1, before + [i.parameter]);
        items, trailingComma := [w] + rest, tc || rest == [];
        PrintPrepends(w, rest, tc);
        OccursSplit(s, f, ",", Print(rest, tc));
        OccursSplit(s, p, w.Text(), "," + Print(rest, tc));
      }
    }
  }

  lemma SliceOccurs(s: string, p: nat, f: nat)
    requires p <= f <= |s|
    ensures Occurs(s, p, s[p..f])
  {
  }

  lemma CharacterOccurs(s: string, p: nat)
    requires p < |s|
    ensures Occurs(s, p, [s[p]])
  {
  }

  /** The text from the parenthesis on is a printed list with rest behind it. */
  ghost predicate IsPrinted(s: Text, from: nat, ignoreTrailingGarbage: bool,
                            items: seq<Written>, trailingComma: bool, rest: string)
    requires from < |s|
  {
    && AllLegal(items) && s[from + 1..] == Print(items, trailingComma) + rest
    && (ignoreTrailingGarbage || AllSpaces(rest))
  }

  /** The parser accepts exactly the printed lists (followed by white space, if nothing else may follow). */
  lemma AcceptedExactlyWhenPrinted(s: Text, from: nat, ignoreTrailingGarbage: bool)
    requires from < |s| && s[from] == '('
    ensures Scan(s, from, ignoreTrailingGarbage).ok <==>
            exists items, trailingComma, rest :: IsPrinted(s, from, ignoreTrailingGarbage, items, trailingComma, rest)
  {
    hide ScanItems, Print, End, AllLegal;
    if Scan(s, from, ignoreTrailingGarbage).ok {
      var items, trailingComma := ScannedIsPrinted(s, from + 1, []);
      var text := Print(items, trailingComma);
      ScanPrinted(s, from + 1, [], items, trailingComma);
      var rest := s[from + 1 + |text|..];
      assert s[from + 1..] == s[from + 1..from + 1 + |text|] + rest;
      if !ignoreTrailingGarbage {
        SpacesSkipped(s, from + 1 + |text|);
        assert rest == s[from + 1 + |text|..|s|];
      }
      assert IsPrinted(s, from, ignoreTrailingGarbage, items, trailingComma, rest);
    }
    forall items, trailingComma, rest | IsPrinted(s, from, ignoreTrailingGarbage, items, trailingComma, rest)
      ensures Scan(s, from, ignoreTrailingGarbage).ok
    {
      PrintedIsParsed(s, from, items, trailingComma, rest, ignoreTrailingGarbage);
    }
  }

  // ------------------------------------------------------------------------------------------
  // The list object
  // ------------------------------------------------------------------------------------------

  datatype Option<T> = None | Some(value: T)

  /** The first parameter called name from position from on, unless one called stopAt comes before it. */
  function First(list: seq<Parameter>, from: nat, stopAt: Option<string>, name: string): (r: Option<nat>)
    ensures r.Some? ==> from <= r.value < |list| && list[r.value].name == name
    ensures r.Some? ==> forall i | from <= i < r.value :: list[i].name != name
    ensures r.Some? ==> forall i | from <= i <= r.value :: stopAt != Some(list[i].name)
    ensures r.None? ==> forall n | from <= n < |list| && list[n].name == name ::
                          exists i :: from <= i <= n && stopAt == Some(list[i].name)
    decreases |list| - from
  {
    if from >= |list| || stopAt == Some(list[from].name) then None
    else if list[from].name == name then Some(from)
    else
      First(list, from + 1, stopAt, name)
  }

  function Marked(used: seq<bool>, found: Option<nat>): (r: seq<bool>)
    ensures |r| == |used|
    ensures forall i | 0 <= i < |used| :: r[i] == (used[i] || found == Some(i))
  {
    if found.Some? && found.value < |used| then used[found.value := true] else used
  }

  lemma ScanItemsStep(s: Text, p: nat, before: seq<Parameter>, f: nat)
    requires p < |s| && s[p] != ')' && ScanItem(s, p, |before|).Item?
    requires f == End(s, ScanItem(s, p, |before|).next, Spaces)
    ensures var list := before + [ScanItem(s, p, |before|).parameter];
            ScanItems(s, p, before) == if !EndsItem(At(s, f)) then Outcome(list, f, false)
                                       else ScanItems(s, if s[f] == ',' then f + 1 else f, list)
  {
    hide End, ScanItem;
  }

  lemma ScanItemsError(s: Text, p: nat, before: seq<Parameter>)
    requires p < |s| && s[p] != ')' && ScanItem(s, p, |before|).SyntaxError?
    ensures ScanItems(s, p, before) == Outcome(before, ScanItem(s, p, |before|).at, false)
  {
    hide ScanItem;
  }

  lemma ScanItemsEnd(s: Text, p: nat, before: seq<Parameter>)
    requires p <= |s| && (p < |s| ==> s[p] == ')')
    ensures ScanItems(s, p, before) == Outcome(before, p, p < |s|)
  {
  }

  class ParameterList {
    var list: seq<Parameter>
    var used: seq<bool>
    var parseError: Option<nat>

    predicate Valid()
      reads this
    {
      |used| == |list|
    }

    /** Parses the text from its opening parenthesis on. */
    constructor (s: Text, from: nat, ignoreTrailingGarbage: bool)
      requires from < |s| && s[from] == '('
      ensures Valid() && forall i | 0 <= i < |used| :: !used[i]
      ensures var r := Scan(s, from, ignoreTrailingGarbage);
              list == r.parameters && parseError == if r.ok then None else Some(r.at)
    {
      list, used, parseError := [], [], None;
      new;
      parseError := ParseParameters(s, from, ignoreTrailingGarbage);
    }

    /** Nothing on success, otherwise the position of the syntax error. */
    method ParseParameters(s: Text, from: nat, ignoreTrailingGarbage: bool) returns (error: Option<nat>)
      requires from < |s| && s[from] == '('
      modifies this`list, this`used
      ensures Valid() && forall i | 0 <= i < |used| :: !used[i]
      ensures var r := Scan(s, from, ignoreTrailingGarbage);
              list == r.parameters && error == if r.ok then None else Some(r.at)
    {
      hide End, ScanItem, ScanItems;
      list, used := [], [];
      var p := from + 1;
      while At(s, p) != '\0' && At(s, p) != ')'
        invariant from < p <= |s|
        invariant Valid() && forall i | 0 <= i < |used| :: !used[i]
        invariant ScanItems(s, p, list) == ScanItems(s, from + 1, [])
        decreases |s| - p
      {
        var i := ParseItem(s, p, |list|);
        if i.SyntaxError? {
          ScanItemsError(s, p, list);
          return Some(i.at);
        }
        ghost var before := list;
        list := list + [i.parameter];
        used := used + [false];
        var f := SkipWhitespaces(s, i.next);
        ScanItemsStep(s, p, before, f);
        p := f;
        if !EndsItem(At(s, p)) {
          return Some(p);
        }
        if s[p] == ',' {
          p := p + 1;
        }
      }
      ScanItemsEnd(s, p, list);
      if At(s, p) != ')' {
        return Some(p);
      }
      if !ignoreTrailingGarbage {
        p := SkipWhitespaces(s, p + 1);
        if At(s, p) != '\0' {
          return Some(p);
        }
      }
      return None;
    }

    /** One turn of the loop, up to the end of the value. */
    method ParseItem(s: Text, p0: nat, index: nat) returns (r: Step)
      requires p0 <= |s|
      ensures r == ScanItem(s, p0, index)
    {
      hide End, ScanValue, CharClass.Has;
      var found, token := NextTokenStart(s, p0, true, false, "");
      if !found {
        return SyntaxError(p0);
      }
      var p := NextTokenEnd(s, token, true, true, "-");
      var name := s[token..p];
      p := SkipWhitespaces(s, p);
      if EndsItem(At(s, p)) {
        return Item(Parameter(name, BOOL_VALUE, 0, index), p);
      }
      if At(s, p) != '=' {
        return SyntaxError(p);
      }
      r := ParseValue(s, name, index, p);
    }

    method ParseValue(s: Text, name: string, index: nat, equals: nat) returns (r: Step)
      requires equals < |s|
      ensures r == ScanValue(s, name, index, equals)
    {
      hide End, CharClass.Has;
      var p := equals + 1;
      var found, token := NextTokenStart(s, p, true, true, "\"*<");
      if !found {
        return SyntaxError(p);
      }
      p := token;
      if s[p] == '"' || s[p] == '<' {
        p := p + 1;
        var end := FindChar(s, p, if s[token] == '"' then '"' else '>');
        if end == |s| {
          return SyntaxError(p);
        }
        p := end + 1;
      } else {
        p := NextTokenEnd(s, p, true, true, ".:*[-]");
      }
      return Item(Parameter(name, s[token..p], token, index), p);
    }

    /** Finds a parameter behind the one with index startAfter and marks it used. Fails (missing parameter)
        when there is none and it is not optional. */
    method FindParameter(startAfter: Option<int>, stopAt: Option<string>, name: string, isOptional: bool)
      returns (ok: bool, found: Option<nat>)
      requires Valid() && (startAfter.Some? ==> startAfter.value < |list|)
      modifies this`used
      ensures Valid() && used == Marked(old(used), found)
      ensures found == First(list, StartAt(startAfter), stopAt, name)
      ensures ok <==> found.Some? || isOptional
    {
      var n := StartAt(startAfter);
      while n < |list|
        invariant n <= |list| && First(list, n, stopAt, name) == First(list, StartAt(startAfter), stopAt, name)
      {
        if stopAt == Some(list[n].name) {
          break;
        }
        if list[n].name == name {
          used := used[n := true];
          return true, Some(n);
        }
        n := n + 1;
      }
      ok, found := isOptional, None;
    }

    /** Behind a default value, which has index -1, nothing is found. */
    function StartAt(startAfter: Option<int>): nat
      reads this`list
    {
      if startAfter.None? then 0 else if startAfter.value >= 0 then startAfter.value + 1 else |list|
    }

    /** The first parameter no lookup has consumed. */
    method CheckForUnusedParameters() returns (unused: Option<nat>)
      requires Valid()
      ensures unused.None? <==> forall i | 0 <= i < |used| :: used[i]
      ensures unused.Some? ==> unused.value < |list| && !used[unused.value] && forall i | 0 <= i < unused.value :: used[i]
    {
      var n := 0;
      while n < |list|
        invariant 0 <= n <= |list| && forall i | 0 <= i < n :: used[i]
      {
        if !used[n] {
          return Some(n);
        }
        n := n + 1;
      }
      unused := None;
    }

    method FindTag(v: nat) returns (tag: TagSource)
      requires Valid() && v < |list|
      modifies this`used
      ensures Valid() && tag == TagAt(list, v)
      ensures forall i | 0 <= i < |list| ::
                used[i] == (old(used[i]) || tag.vtype == Some(i) || tag.prio == Some(i) || tag.dei == Some(i))
    {
      hide First;
      var ok, vtype, prio, dei;
      ok, vtype := FindParameter(Some(v), Some(VID), VTYPE, true);
      ok, prio := FindParameter(Some(v), Some(VID), PRIO, true);
      ok, dei := FindParameter(Some(v), Some(VID), DEI, true);
      tag := TagSource(v, vtype, prio, dei);
    }

    /** Finds the VLAN tags and their attributes; reading the numbers is left out. */
    method CompileVlanTags() returns (tags: seq<TagSource>)
      requires Valid()
      modifies this`used
      ensures Valid()
      ensures tags == Tags(list, First(list, 0, None, VID)) && DescribeAll(list, tags)
      ensures forall i | 0 <= i < |list| :: used[i] == (old(used[i]) || ConsumedByTags(list, i))
    {
      hide First, ConsumedByTags, Tags, TagAt, Marked, MarkedUpTo, DescribeAll;
      tags := [];
      var ok, vid := FindParameter(None, None, VID, true);
      FirstTagMarked(old(used), used, list, vid);
      while vid.Some?
        invariant Valid()
        invariant vid.Some? ==> vid.value < |list| && list[vid.value].name == VID
        invariant tags + Tags(list, vid) == Tags(list, First(list, 0, None, VID))
        invariant MarkedUpTo(old(used), used, list, vid)
        decreases if vid.Some? then |list| - vid.value else 0
      {
        ghost var before, current := used, vid.value;
        var tag := FindTag(vid.value);
        tags := tags + [tag];
        ghost var between := used;
        ok, vid := FindParameter(Some(vid.value), None, VID, true);
        TagsUnfold(list, current);
        assert tags + Tags(list, vid) == tags[..|tags| - 1] + ([tag] + Tags(list, vid));
        NextTagMarked(old(used), before, between, used, list, current);
      }
      NoTags(list);
      assert tags + [] == tags;
      TagsDescribeAll(list);
    }
  }

  lemma NoTags(list: seq<Parameter>)
    ensures Tags(list, None) == []
    ensures forall from, used :: MarkedUpTo(from, used, list, None) ==>
              |used| == |from| == |list| && forall i | 0 <= i < |list| :: used[i] == (from[i] || ConsumedByTags(list, i))
  {
  }

  /** Up to the current tag the marks are final; behind it nothing has changed. */
  ghost predicate MarkedUpTo(from: seq<bool>, used: seq<bool>, list: seq<Parameter>, vid: Option<nat>) {
    && |from| == |used| == |list|
    && forall i | 0 <= i < |list| :: used[i] == (from[i] || ((vid.Some? ==> i <= vid.value) && ConsumedByTags(list, i)))
  }

  lemma FirstTagMarked(from: seq<bool>, used: seq<bool>, list: seq<Parameter>, vid: Option<nat>)
    requires |from| == |list| && vid == First(list, 0, None, VID) && used == Marked(from, vid)
    ensures MarkedUpTo(from, used, list, vid)
  {
    hide ConsumedByTags, First, Marked;
    NothingBeforeFirstTag(list);
  }

  lemma TagsUnfold(list: seq<Parameter>, v: nat)
    requires v < |list|
    ensures Tags(list, Some(v)) == [TagAt(list, v)] + Tags(list, First(list, v + 1, None, VID))
  {
    hide First, TagAt;
  }

  lemma NextTagMarked(from: seq<bool>, before: seq<bool>, between: seq<bool>, used: seq<bool>, list: seq<Parameter>, v: nat)
    requires v < |list| && list[v].name == VID && MarkedUpTo(from, before, list, Some(v))
    requires |between| == |list| && used == Marked(between, First(list, v + 1, None, VID))
    requires forall i | 0 <= i < |list| :: between[i] ==
               (before[i] || TagAt(list, v).vtype == Some(i) || TagAt(list, v).prio == Some(i) || TagAt(list, v).dei == Some(i))
    ensures MarkedUpTo(from, used, list, First(list, v + 1, None, VID))
  {
    hide ConsumedByTags, First, Marked;
    TagConsumes(list, v);
    var next, tag := First(list, v + 1, None, VID), TagAt(list, v);
    forall i | 0 <= i < |list|
      ensures used[i] == (from[i] || ((next.Some? ==> i <= next.value) && ConsumedByTags(list, i)))
    {
      if next.Some? && i > next.value {
        AttributesStopAtNext(list, v);
      }
    }
  }

  /** The attributes of a tag lie between it and the next tag. */
  lemma AttributesStopAtNext(list: seq<Parameter>, v: nat)
    ensures var next, tag := First(list, v + 1, None, VID), TagAt(list, v);
            next.Some? ==> forall f | f in {tag.vtype, tag.prio, tag.dei} && f.Some? :: v < f.value < next.value
  {
    hide First;
  }

  // ------------------------------------------------------------------------------------------
  // VLAN tags as groups of a flat list
  // ------------------------------------------------------------------------------------------

  const VID: string := "vid"
  const VTYPE: string := "vtype"
  const PRIO: string := "prio"
  const DEI: string := "dei"

  /** Which parameters describe one tag. */
  datatype TagSource = TagSource(vid: nat, vtype: Option<nat>, prio: Option<nat>, dei: Option<nat>)

  function TagAt(list: seq<Parameter>, v: nat): TagSource {
    TagSource(v, First(list, v + 1, Some(VID), VTYPE), First(list, v + 1, Some(VID), PRIO), First(list, v + 1, Some(VID), DEI))
  }

  function Tags(list: seq<Parameter>, vid: Option<nat>): seq<TagSource>
    decreases if vid.Some? then |list| - vid.value else 0
  {
    if vid.None? || vid.value >= |list| then [] else [TagAt(list, vid.value)] + Tags(list, First(list, vid.value + 1, None, VID))
  }

  /** The tags come in the order of the list and none is missing. */
  lemma {:induction false} TagsAreAllVidsInOrder(list: seq<Parameter>, from: nat)
    ensures var tags := Tags(list, First(list, from, None, VID));
            && (forall k | 0 <= k < |tags| :: from <= tags[k].vid < |list| && list[tags[k].vid].name == VID)
            && (forall k, m | 0 <= k < m < |tags| :: tags[k].vid < tags[m].vid)
            && (forall i | from <= i < |list| && list[i].name == VID :: exists k :: 0 <= k < |tags| && tags[k].vid == i)
    decreases |list| - from
  {
    hide First, Tags, VID;
    var vid := First(list, from, None, VID);
    if vid.Some? {
      var v := vid.value;
      TagsAreAllVidsInOrder(list, v + 1);
      TagsUnfold(list, v);
      var rest := Tags(list, First(list, v + 1, None, VID));
      assert forall i | from <= i < v :: list[i].name != VID by {
        forall i | from <= i < v ensures list[i].name != VID { NoVidBefore(list, from, i); }
      }
      PrependTag(list, from, v, rest);
    } else {
      NoTags(list);
    }
  }

  /** The parameter called name that belongs to the tag at v: the first one between v and the next "vid". */
  ghost predicate Belongs(list: seq<Parameter>, v: nat, name: string, found: Option<nat>) {
    match found
    case Some(i) => v < i < |list| && list[i].name == name && NoneCalled(list, name, v + 1, i) && NoneCalled(list, "vid", v + 1, i)
    case None => forall i | v < i < |list| && list[i].name == name :: exists n :: v < n < i && list[n].name == "vid"
  }

  ghost predicate Describes(list: seq<Parameter>, tag: TagSource) {
    && tag.vid < |list| && list[tag.vid].name == "vid"
    && Belongs(list, tag.vid, "vtype", tag.vtype)
    && Belongs(list, tag.vid, "prio", tag.prio)
    && Belongs(list, tag.vid, "dei", tag.dei)
  }

  /** One tag for every "vid", in the order of the list, each with the attributes that belong to it. */
  ghost predicate DescribeAll(list: seq<Parameter>, tags: seq<TagSource>) {
    && (forall k | 0 <= k < |tags| :: Describes(list, tags[k]))
    && (forall k, m | 0 <= k < m < |tags| :: tags[k].vid < tags[m].vid)
    && (forall i | 0 <= i < |list| && list[i].name == "vid" :: exists k :: 0 <= k < |tags| && tags[k].vid == i)
  }

  lemma FirstBelongs(list: seq<Parameter>, v: nat, name: string)
    requires name != "vid"
    ensures Belongs(list, v, name, First(list, v + 1, Some("vid"), name))
  {
    hide First;
  }

  lemma TagDescribes(list: seq<Parameter>, v: nat)
    requires v < |list| && list[v].name == VID
    ensures Describes(list, TagAt(list, v))
  {
    hide First, Belongs;
    FirstBelongs(list, v, "vtype");
    FirstBelongs(list, v, "prio");
    FirstBelongs(list, v, "dei");
  }

  lemma {:induction false} TagsAreTagAt(list: seq<Parameter>, vid: Option<nat>)
    ensures forall k | 0 <= k < |Tags(list, vid)| :: Tags(list, vid)[k] == TagAt(list, Tags(list, vid)[k].vid)
    decreases if vid.Some? then |list| - vid.value else 0
  {
    hide First;
    if vid.Some? && vid.value < |list| {
      TagsAreTagAt(list, First(list, vid.value + 1, None, VID));
    }
  }

  /** The tags found are exactly those the list describes. */
  lemma TagsDescribeAll(list: seq<Parameter>)
    ensures DescribeAll(list, Tags(list, First(list, 0, None, VID)))
  {
    hide First, Tags, TagAt, Describes;
    var tags := Tags(list, First(list, 0, None, VID));
    TagsAreAllVidsInOrder(list, 0);
    TagsAreTagAt(list, First(list, 0, None, VID));
    forall k | 0 <= k < |tags|
      ensures Describes(list, tags[k])
    {
      TagDescribes(list, tags[k].vid);
    }
  }

  /** The description leaves no choice. */
  lemma DescriptionUnique(list: seq<Parameter>, tag: TagSource, other: TagSource)
    requires Describes(list, tag) && Describes(list, other) && tag.vid == other.vid
    ensures tag == other
  {
    hide Belongs;
    BelongsUnique(list, tag.vid, "vtype", tag.vtype, other.vtype);
    BelongsUnique(list, tag.vid, "prio", tag.prio, other.prio);
    BelongsUnique(list, tag.vid, "dei", tag.dei, other.dei);
  }

  lemma BelongsUnique(list: seq<Parameter>, v: nat, name: string, found: Option<nat>, other: Option<nat>)
    requires Belongs(list, v, name, found) && Belongs(list, v, name, other)
    ensures found == other
  {
  }

  lemma PrependTag(list: seq<Parameter>, from: nat, v: nat, rest: seq<TagSource>)
    requires from <= v < |list| && list[v].name == VID && forall i | from <= i < v :: list[i].name != VID
    requires forall k | 0 <= k < |rest| :: v + 1 <= rest[k].vid < |list| && list[rest[k].vid].name == VID
    requires forall k, m | 0 <= k < m < |rest| :: rest[k].vid < rest[m].vid
    requires forall i | v + 1 <= i < |list| && list[i].name == VID :: exists k :: 0 <= k < |rest| && rest[k].vid == i
    ensures var tags := [TagAt(list, v)] + rest;
            && (forall k | 0 <= k < |tags| :: from <= tags[k].vid < |list| && list[tags[k].vid].name == VID)
            && (forall k, m | 0 <= k < m < |tags| :: tags[k].vid < tags[m].vid)
            && (forall i | from <= i < |list| && list[i].name == VID :: exists k :: 0 <= k < |tags| && tags[k].vid == i)
  {
    hide First, VID, VTYPE, PRIO, DEI;
    var tags := [TagAt(list, v)] + rest;
    assert tags[0].vid == v;
    forall i | from <= i < |list| && list[i].name == VID
      ensures exists k :: 0 <= k < |tags| && tags[k].vid == i
    {
      if i > v {
        var k :| 0 <= k < |rest| && rest[k].vid == i;
        assert tags[k + 1].vid == i;
      }
    }
  }

  /** No parameter called name stands at positions from..to. */
  predicate NoneCalled(list: seq<Parameter>, name: string, from: nat, to: nat)
    requires to <= |list|
  {
    forall i | from <= i < to :: list[i].name != name
  }

  lemma NoVidBefore(list: seq<Parameter>, from: nat, i: nat)
    requires from <= i < |list| && (First(list, from, None, VID).Some? ==> i < First(list, from, None, VID).value)
    ensures list[i].name != VID
  {
    hide First;
  }

  lemma NothingBeforeFirstTag(list: seq<Parameter>)
    ensures var vid := First(list, 0, None, VID);
            forall i | 0 <= i < |list| && (vid.Some? ==> i <= vid.value) :: ConsumedByTags(list, i) <==> vid == Some(i)
  {
    hide First, ConsumedByTags, VID;
    var vid := First(list, 0, None, VID);
    forall i | 0 <= i < |list| && (vid.Some? ==> i <= vid.value)
      ensures ConsumedByTags(list, i) <==> vid == Some(i)
    {
      if vid == Some(i) {
        VidConsumed(list, i);
      } else {
        forall v | 0 <= v <= i ensures list[v].name != VID { NoVidBefore(list, 0, v); }
        NotConsumed(list, i);
      }
    }
  }

  lemma VidConsumed(list: seq<Parameter>, i: nat)
    requires i < |list| && list[i].name == VID
    ensures ConsumedByTags(list, i)
  {
  }

  lemma NotConsumed(list: seq<Parameter>, i: nat)
    requires i < |list| && forall v | 0 <= v <= i :: list[v].name != VID
    ensures !ConsumedByTags(list, i)
  {
    hide VID;
  }

  /** Of what lies between a tag and the next one, the first of each kind of attribute is consumed. */
  lemma TagConsumes(list: seq<Parameter>, v: nat)
    requires v < |list| && list[v].name == VID
    ensures var next, tag := First(list, v + 1, None, VID), TagAt(list, v);
            forall i | v < i < |list| && (next.Some? ==> i <= next.value) ::
              ConsumedByTags(list, i) <==> next == Some(i) || tag.vtype == Some(i) || tag.prio == Some(i) || tag.dei == Some(i)
  {
    hide First, ConsumedByTags, VID, VTYPE, PRIO, DEI;
    var next, tag := First(list, v + 1, None, VID), TagAt(list, v);
    NamesDiffer();
    forall i | v < i < |list| && (next.Some? ==> i <= next.value)
      ensures ConsumedByTags(list, i) <==> next == Some(i) || tag.vtype == Some(i) || tag.prio == Some(i) || tag.dei == Some(i)
    {
      if next == Some(i) {
        VidConsumed(list, i);
      } else {
        AttributeConsumed(list, v, i);
      }
    }
  }

  lemma NamesDiffer()
    ensures VID != VTYPE && VID != PRIO && VID != DEI && VTYPE != PRIO && VTYPE != DEI && PRIO != DEI
  {
  }

  lemma AttributeConsumed(list: seq<Parameter>, v: nat, i: nat)
    requires v < i < |list| && list[v].name == VID && NoneCalled(list, VID, v + 1, i + 1)
    ensures ConsumedByTags(list, i) <==>
              list[i].name in {VTYPE, PRIO, DEI} && First(list, v + 1, Some(VID), list[i].name) == Some(i)
  {
    hide First, VID, VTYPE, PRIO, DEI;
    var name := list[i].name;
    assert list[i].name != VID;
    if ConsumedByTags(list, i) {
      var v' :| 0 <= v' < i && list[v'].name == VID && NoneCalled(list, VID, v' + 1, i) && NoneCalled(list, name, v' + 1, i);
      NearestVid(list, v, v', i);
      FirstIs(list, v + 1, name, i);
    }
  }

  lemma NearestVid(list: seq<Parameter>, v: nat, v': nat, i: nat)
    requires v < i < |list| && v' < i && list[v].name == VID && list[v'].name == VID
    requires NoneCalled(list, VID, v + 1, i) && NoneCalled(list, VID, v' + 1, i)
    ensures v == v'
  {
    hide VID;
  }

  lemma FirstIs(list: seq<Parameter>, from: nat, name: string, i: nat)
    requires from <= i < |list| && list[i].name == name && name != VID
    requires NoneCalled(list, VID, from, i) && NoneCalled(list, name, from, i)
    ensures First(list, from, Some(VID), name) == Some(i)
  {
    hide First, VID;
  }

  /** A tag's own entry, or the first attribute of its kind behind the nearest tag. */
  ghost predicate ConsumedByTags(list: seq<Parameter>, i: nat)
    requires i < |list|
  {
    || list[i].name == VID
    || (list[i].name in {VTYPE, PRIO, DEI}
        && exists v :: 0 <= v < i && list[v].name == VID && NoneCalled(list, VID, v + 1, i)
                       && NoneCalled(list, list[i].name, v + 1, i))
  }
}
