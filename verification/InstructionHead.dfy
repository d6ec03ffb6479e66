/** The head of an instruction: timestamp, keyword and opening parenthesis; scanner against grammar. */
module InstructionHead {
  import opened ParseHelper
  import opened Parameters

  const DIGITS := Chars(false, true, "")

  // ------------------------------------------------------------------------------------------
  // What the parser does
  // ------------------------------------------------------------------------------------------

  datatype Timestamp = Timestamp(isAbsolute: bool, ticks: nat)

  datatype Front = BadFront | Front(timestamp: Option<Timestamp>, next: nat)

  datatype Head = BadHead | Head(timestamp: Option<Timestamp>, keyword: string, open: nat)

  predicate AllDigits(t: string) {
    forall c | c in t :: IsDigit(c)
  }

  /** The number a digit string stands for. */
  function Decimal(t: string): nat
    requires AllDigits(t)
  {
    if t == "" then 0
    else
      assert IsDigit(t[|t| - 1]);
      Decimal(t[..|t| - 1]) * 10 + (t[|t| - 1] as int - '0' as int)
  }

  /** The C library's strtoull on digits: a number that needs more than 64 bits becomes the largest one. */
  function Ticks(t: string): nat
    requires AllDigits(t)
  {
    if Decimal(t) > 0xffff_ffff_ffff_ffff then 0xffff_ffff_ffff_ffff else Decimal(t)
  }

  lemma DigitsEnd(s: Text, b: nat)
    requires b <= |s|
    ensures AllDigits(s[b..End(s, b, DIGITS)])
  {
  }

  /** The timestamp, if there is one, and where it ends. */
  function ScanTimestamp(s: Text, p: nat): (r: Front)
    requires p <= |s|
    ensures r.Front? ==> p <= r.next <= |s|
  {
    var a := End(s, p, Spaces);
    if a == |s| || !(IsDigit(s[a]) || s[a] == '+') then Front(None, a)
    else
      var b := if s[a] == '+' then a + 1 else a;
      var c := End(s, b, DIGITS);
      var d := End(s, c, Spaces);
      DigitsEnd(s, b);
      if c == b || d == |s| || s[d] != ':' then BadFront
      else Front(Some(Timestamp(s[a] != '+', Ticks(s[b..c]))), d + 1)
  }

  function ScanHead(s: Text, p: nat): (h: Head)
    requires p <= |s|
    ensures h.Head? ==> p < h.open < |s| && s[h.open] == '('
  {
    var t := ScanTimestamp(s, p);
    if t.BadFront? then BadHead
    else
      var a := End(s, t.next, Spaces);
      if a == |s| || !KEY_START.Has(s[a]) then BadHead
      else
        var b := End(s, a, KEY);
        var c := End(s, b, Spaces);
        if c == |s| || s[c] != '(' then BadHead else Head(t.timestamp, s[a..b], c)
  }

  // ------------------------------------------------------------------------------------------
  // The grammar
  // ------------------------------------------------------------------------------------------

  /** A timestamp as written: digits and a colon; with a plus sign it is relative. */
  datatype WrittenStamp = WrittenStamp(lead: string, plus: bool, digits: string, trail: string) {
    predicate Legal() {
      AllSpaces(lead) && digits != "" && AllDigits(digits) && AllSpaces(trail)
    }

    function Text(): string {
      lead + (if plus then "+" else "") + digits + trail + ":"
    }

    function Meaning(): Timestamp
      requires Legal()
    {
      Timestamp(!plus, Ticks(digits))
    }
  }

  datatype WrittenHead = WrittenHead(stamp: Option<WrittenStamp>, lead: string, keyword: string, trail: string) {
    predicate Legal() {
      (stamp.Some? ==> stamp.value.Legal()) && AllSpaces(lead) && LegalName(keyword) && AllSpaces(trail)
    }

    function StampText(): string {
      if stamp.Some? then stamp.value.Text() else ""
    }

    function Text(): string {
      StampText() + (lead + keyword + trail + "(")
    }

    /** What it means when it stands at position at. */
    function Meaning(at: nat): Head
      requires Legal()
    {
      Head(if stamp.Some? then Some(stamp.value.Meaning()) else None, keyword, at + |Text()| - 1)
    }
  }

  // ------------------------------------------------------------------------------------------
  // Scanner and grammar agree
  // ------------------------------------------------------------------------------------------

  /** Where the parts of a written timestamp stand. */
  lemma StampPartsOccur(s: Text, p: nat, w: WrittenStamp)
    requires Occurs(s, p, w.Text())
    ensures var a := p + |w.lead|;
            var b := if w.plus then a + 1 else a;
            var c := b + |w.digits|;
            var d := c + |w.trail|;
            && Occurs(s, p, w.lead) && Occurs(s, b, w.digits) && Occurs(s, c, w.trail) && Occurs(s, d, ":")
            && (w.plus ==> Occurs(s, a, "+")) && |w.Text()| == d + 1 - p
  {
    hide Occurs;
    var sign := if w.plus then "+" else "";
    OccursSplit(s, p, w.lead + sign + w.digits + w.trail, ":");
    OccursSplit(s, p, w.lead + sign + w.digits, w.trail);
    OccursSplit(s, p, w.lead + sign, w.digits);
    OccursSplit(s, p, w.lead, sign);
  }

  lemma PrintedStampIsScanned(s: Text, p: nat, w: WrittenStamp)
    requires w.Legal() && Occurs(s, p, w.Text())
    ensures ScanTimestamp(s, p) == Front(Some(w.Meaning()), p + |w.Text()|)
  {
    hide *;
    var a := p + |w.lead|;
    var b := if w.plus then a + 1 else a;
    var c := b + |w.digits|;
    StampPartsOccur(s, p, w);
    StampParts(w);
    if w.plus { OccursAt(s, a, "+"); }
    OccursAt(s, b, w.digits);
    OccursAt(s, c + |w.trail|, ":");
    DigitOrSign(s[b]);
    DigitOrSign(s[a]);
    DigitOrSign(s[c]);
    DigitOrSign(s[c + |w.trail|]);
    EndOfSpaces(s, c, w.trail);
    EndOfSpaces(s, p, w.lead);
    DigitsOnly(w.digits);
    EndOfRun(s, b, w.digits, DIGITS);
    StampScanned(s, p, a, b, c, c + |w.trail|);
  }

  lemma StampParts(w: WrittenStamp)
    requires w.Legal()
    ensures AllSpaces(w.lead) && AllSpaces(w.trail) && AllDigits(w.digits) && |w.digits| > 0 && IsDigit(w.digits[0])
    ensures w.Meaning() == Timestamp(!w.plus, Ticks(w.digits))
  {
  }

  lemma DigitsOnly(t: string)
    requires AllDigits(t)
    ensures forall c | c in t :: DIGITS.Has(c)
  {
  }

  lemma DigitOrSign(c: char)
    ensures IsDigit(c) || c == '+' || c == ':' ==> !IsSpace(c)
    ensures IsDigit(c) ==> c != '+'
    ensures DIGITS.Has(c) <==> IsDigit(c)
    ensures IsSpace(c) || c == ':' ==> !IsDigit(c)
  {
  }

  lemma StampScanned(s: Text, p: nat, a: nat, b: nat, c: nat, d: nat)
    requires p <= a < |s| && End(s, p, Spaces) == a && (IsDigit(s[a]) || s[a] == '+')
    requires b == (if s[a] == '+' then a + 1 else a) && b < c <= |s| && End(s, b, DIGITS) == c && AllDigits(s[b..c])
    requires End(s, c, Spaces) == d < |s| && s[d] == ':'
    ensures ScanTimestamp(s, p) == Front(Some(Timestamp(s[a] != '+', Ticks(s[b..c]))), d + 1)
  {
    hide End, Ticks, AllDigits, IsDigit;
  }

  lemma PrintedKeywordIsScanned(s: Text, p: nat, w: WrittenHead)
    requires w.Legal() && Occurs(s, p, w.lead + w.keyword + w.trail + "(")
    ensures var a := p + |w.lead|;
            var b := a + |w.keyword|;
            var c := b + |w.trail|;
            && End(s, p, Spaces) == a && a < b <= c < |s| && KEY_START.Has(s[a]) && End(s, a, KEY) == b
            && s[a..b] == w.keyword && End(s, b, Spaces) == c && s[c] == '('
  {
    hide End, Occurs, KEY_START, KEY, LegalName;
    var c := p + |w.lead| + |w.keyword| + |w.trail|;
    OccursSplit(s, p, w.lead + w.keyword + w.trail, "(");
    OccursSplit(s, p, w.lead + w.keyword, w.trail);
    OccursSplit(s, p, w.lead, w.keyword);
    OccursAt(s, c, "(");
    ScanPrintedName(s, p, w.lead, w.keyword, w.trail);
  }

  lemma NoStampScanned(s: Text, p: nat)
    requires p <= |s| && End(s, p, Spaces) < |s| && KEY_START.Has(s[End(s, p, Spaces)])
    ensures var a := End(s, p, Spaces); ScanTimestamp(s, p) == Front(None, a) && End(s, a, Spaces) == a
  {
    hide Ticks;
    EndUnique(s, End(s, p, Spaces), Spaces, End(s, p, Spaces));
  }

  /** Every head as written is read with its meaning. */
  lemma PrintedHeadIsScanned(s: Text, p: nat, w: WrittenHead)
    requires w.Legal() && Occurs(s, p, w.Text())
    ensures ScanHead(s, p) == w.Meaning(p)
  {
    hide End, Occurs, CharClass.Has, LegalName, AllSpaces, IsSpace, ScanTimestamp;
    hide WrittenStamp.Legal, WrittenStamp.Text, WrittenStamp.Meaning;
    OccursSplit(s, p, w.StampText(), w.lead + w.keyword + w.trail + "(");
    PrintedKeywordIsScanned(s, p + |w.StampText()|, w);
    if w.stamp.Some? {
      PrintedStampIsScanned(s, p, w.stamp.value);
    } else {
      NoStampScanned(s, p);
    }
  }

  lemma StampSlices(s: Text, p: nat, a: nat, b: nat, c: nat, d: nat)
    requires p <= a <= b <= c <= d < |s|
    ensures s[p..a] + s[a..b] + s[b..c] + s[c..d] + [s[d]] == s[p..d + 1]
  {
    Slices(s, p, a, b, c);
    Slices(s, p, c, d, d + 1);
  }

  lemma ScannedStampIsPrinted(s: Text, p: nat) returns (w: WrittenStamp)
    requires p <= |s| && ScanTimestamp(s, p).Front? && ScanTimestamp(s, p).timestamp.Some?
    ensures var t := ScanTimestamp(s, p);
            w.Legal() && w.Text() == s[p..t.next] && t.timestamp == Some(w.Meaning())
  {
    hide End, AllSpaces, AllDigits, IsDigit, Ticks, WrittenStamp.Text, WrittenStamp.Legal;
    var a := End(s, p, Spaces);
    var b := if s[a] == '+' then a + 1 else a;
    var c := End(s, b, DIGITS);
    var d := End(s, c, Spaces);
    SpacesSkipped(s, p);
    SpacesSkipped(s, c);
    DigitsEnd(s, b);
    w := WrittenStamp(s[p..a], s[a] == '+', s[b..c], s[c..d]);
    StampOfSlices(s, p, a, b, c, d, w);
  }

  lemma StampOfSlices(s: Text, p: nat, a: nat, b: nat, c: nat, d: nat, w: WrittenStamp)
    requires p <= a < |s| && b == (if s[a] == '+' then a + 1 else a) && b < c <= d < |s| && s[d] == ':'
    requires AllSpaces(s[p..a]) && AllDigits(s[b..c]) && AllSpaces(s[c..d])
    requires w == WrittenStamp(s[p..a], s[a] == '+', s[b..c], s[c..d])
    ensures w.Legal() && w.Text() == s[p..d + 1]
  {
    hide AllSpaces, AllDigits, IsDigit;
    StampSlices(s, p, a, b, c, d);
  }

  lemma HeadSlices(s: Text, p: nat, a: nat, b: nat, c: nat)
    requires p <= a <= b <= c < |s|
    ensures s[p..a] + s[a..b] + s[b..c] + [s[c]] == s[p..c + 1]
  {
  }

  lemma OnlySpacesSkipped(s: Text, p: nat)
    requires p <= |s| && ScanTimestamp(s, p).Front? && ScanTimestamp(s, p).timestamp.None?
    ensures var a := ScanTimestamp(s, p).next; a == End(s, p, Spaces) == End(s, a, Spaces)
  {
    hide Ticks;
    EndUnique(s, End(s, p, Spaces), Spaces, End(s, p, Spaces));
  }

  /** Every head that is accepted is one as written. */
  lemma ScannedHeadIsPrinted(s: Text, p: nat) returns (w: WrittenHead)
    requires p <= |s| && ScanHead(s, p).Head?
    ensures w.Legal() && Occurs(s, p, w.Text()) && ScanHead(s, p) == w.Meaning(p)
  {
    hide End, Occurs, CharClass.Has, LegalName, AllSpaces, IsSpace, ScanTimestamp;
    hide WrittenStamp.Legal, WrittenStamp.Text, WrittenStamp.Meaning;
    var t := ScanTimestamp(s, p);
    var a := End(s, t.next, Spaces);
    var b := End(s, a, KEY);
    var c := End(s, b, Spaces);
    SpacesSkipped(s, t.next);
    NameNotEmpty(s, a);
    SpacesSkipped(s, b);
    HeadSlices(s, t.next, a, b, c);
    if t.timestamp.Some? {
      var stamp := ScannedStampIsPrinted(s, p);
      w := WrittenHead(Some(stamp), s[t.next..a], s[a..b], s[b..c]);
      assert s[p..t.next] + s[t.next..c + 1] == s[p..c + 1];
    } else {
      OnlySpacesSkipped(s, p);
      SpacesSkipped(s, p);
      w := WrittenHead(None, s[p..a], s[a..b], s[b..c]);
      HeadSlices(s, p, a, b, c);
      assert "" + s[p..c + 1] == s[p..c + 1];
    }
    SliceOccurs(s, p, c + 1);
  }

  /** A head is accepted exactly when it is one as written, and is read with its meaning. */
  lemma HeadExactlyWhenPrinted(s: Text, p: nat, h: Head)
    requires p <= |s| && h.Head?
    ensures ScanHead(s, p) == h <==> exists w: WrittenHead :: w.Legal() && Occurs(s, p, w.Text()) && w.Meaning(p) == h
  {
    hide ScanHead, WrittenHead.Legal, WrittenHead.Text, WrittenHead.Meaning, Occurs;
    if ScanHead(s, p) == h {
      var w := ScannedHeadIsPrinted(s, p);
    }
    forall w: WrittenHead | w.Legal() && Occurs(s, p, w.Text()) && w.Meaning(p) == h
      ensures ScanHead(s, p) == h
    {
      PrintedHeadIsScanned(s, p, w);
    }
  }

  // ------------------------------------------------------------------------------------------
  // Numbers
  // ------------------------------------------------------------------------------------------

  /** The decimal numeral of a number. */
  function Numeral(n: nat): string {
    (if n < 10 then "" else Numeral(n / 10)) + ["0123456789"[n % 10]]
  }

  /** A timestamp written in decimal is read as that number, up to 2^64 - 1. */
  lemma {:induction false} NumeralIsRead(n: nat)
    ensures AllDigits(Numeral(n)) && Decimal(Numeral(n)) == n
    ensures Ticks(Numeral(n)) == if n < 0x1_0000_0000_0000_0000 then n else 0xffff_ffff_ffff_ffff
  {
    var front := if n < 10 then "" else Numeral(n / 10);
    var last := "0123456789"[n % 10];
    if n >= 10 {
      NumeralIsRead(n / 10);
    }
    assert Numeral(n) == front + [last] && (front + [last])[..|front|] == front;
    assert IsDigit(last) && last as int - '0' as int == n % 10;
  }
}
