/** Splitting a script file into instructions, call by call, against a definition on the whole text. */
module FileParser {

  import opened ParseHelper

  predicate IsDelimiter(c: char) {
    c == ';' || c == '{' || c == '}'
  }

  predicate Plain(s: string) {
    forall c | c in s :: !IsDelimiter(c)
  }

  // ------------------------------------------------------------------------------------------
  // What a script means
  // ------------------------------------------------------------------------------------------

  /** The rest of the text from the next line end on. */
  function DropLine(t: string): (r: string)
    ensures |r| <= |t|
  {
    if t == "" || t[0] == '\n' then t else DropLine(t[1..])
  }

  /** A comment reaches up to, not including, the line end. */
  function Strip(t: string): string
    decreases |t|
  {
    if t == "" then ""
    else if t[0] == '#' then Strip(DropLine(t[1..]))
    else [t[0]] + Strip(t[1..])
  }

  function FirstDelimiter(s: string): (i: nat)
    ensures i <= |s| && Plain(s[..i]) && (i < |s| ==> IsDelimiter(s[i]))
  {
    if s == "" || IsDelimiter(s[0]) then 0
    else
      var i := 1 + FirstDelimiter(s[1..]);
      assert s[..i] == [s[0]] + s[1..][..i - 1];
      i
  }

  datatype Outcome = Instruction(text: string) | Eof | MissingSemicolon | UnmatchedClose | UnclosedBlock

  datatype Step = Step(outcome: Outcome, rest: string, depth: nat)

  /** The next instruction of a text without comments, or how the script ends. Text in front of an opening
      brace is dropped; only white space may stand in front of a closing one; an unterminated rest is dropped. */
  function Next(s: string, depth: nat): (r: Step)
    ensures r.outcome.Instruction? ==> |r.rest| < |s|
    decreases |s|
  {
    var i := FirstDelimiter(s);
    if i == |s| then Step(if depth > 0 then UnclosedBlock else Eof, "", depth)
    else if s[i] == ';' then Step(Instruction(s[..i]), s[i + 1..], depth)
    else if s[i] == '{' then Next(s[i + 1..], depth + 1)
    else if !AllSpaces(s[..i]) then Step(MissingSemicolon, s[i + 1..], depth)
    else if depth == 0 then Step(UnmatchedClose, s[i + 1..], depth)
    else Next(s[i + 1..], depth - 1)
  }

  datatype Script = Script(instructions: seq<string>, end: Outcome)

  /** All instructions of a text without comments, and how it ends. */
  function Meaning(s: string, depth: nat): Script
    decreases |s|
  {
    var n := Next(s, depth);
    if n.outcome.Instruction? then
      var m := Meaning(n.rest, n.depth);
      Script([n.outcome.text] + m.instructions, m.end)
    else Script([], n.outcome)
  }

  // ------------------------------------------------------------------------------------------
  // Scripts as they are written
  // ------------------------------------------------------------------------------------------

  lemma {:induction false} CodeKept(code: string, r: string)
    requires '#' !in code
    ensures Strip(code + r) == code + Strip(r)
  {
    if code == "" {
      assert code + r == r;
    } else {
      assert (code + r)[1..] == code[1..] + r;
      CodeKept(code[1..], r);
    }
  }

  lemma {:induction false} LineDropped(comment: string, r: string)
    requires '\n' !in comment && (r != "" ==> r[0] == '\n')
    ensures DropLine(comment + r) == r
  {
    if comment == "" {
      assert comment + r == r;
    } else {
      assert (comment + r)[1..] == comment[1..] + r;
      LineDropped(comment[1..], r);
    }
  }

  /** Line by line: what follows a number sign is dropped, the line end is kept. */
  lemma CommentStripped(code: string, comment: string, rest: string)
    requires '#' !in code && '\n' !in comment && (rest != "" ==> rest[0] == '\n')
    ensures Strip(code + ("#" + comment + rest)) == code + Strip(rest)
    ensures Strip(code + ("#" + comment)) == code
    ensures Strip(code) == code
  {
    CodeKept(code, "#" + comment + rest);
    CodeKept(code, "#" + comment);
    CodeKept(code, "");
    LineDropped(comment, rest);
    LineDropped(comment, "");
    assert ("#" + comment + rest)[1..] == comment + rest && comment + "" == comment && code + "" == code;
  }

  /** Instructions and blocks of instructions, in the order they are written. */
  datatype Written = Nothing
                   | Instr(text: string, andThen: Written)
                   | Block(header: string, body: Written, gap: string, andThen: Written)
  {
    predicate Legal() {
      match this
      case Nothing => true
      case Instr(text, andThen) => Plain(text) && andThen.Legal()
      case Block(header, body, gap, andThen) => Plain(header) && body.Legal() && AllSpaces(gap) && andThen.Legal()
    }

    function Print(): string {
      match this
      case Nothing => ""
      case Instr(text, andThen) => text + [';'] + andThen.Print()
      case Block(header, body, gap, andThen) => header + ['{'] + (body.Print() + (gap + ['}'] + andThen.Print()))
    }

    /** Blocks only group: what stands in front of one is dropped, and its instructions are run like any other. */
    function Instructions(): seq<string> {
      match this
      case Nothing => []
      case Instr(text, andThen) => [text] + andThen.Instructions()
      case Block(_, body, _, andThen) => body.Instructions() + andThen.Instructions()
    }
  }

  lemma SpacesArePlain(gap: string)
    requires AllSpaces(gap)
    ensures Plain(gap)
  {
  }

  lemma MeaningStep(p: string, c: char, r: string, depth: nat)
    requires Plain(p) && IsDelimiter(c) && (c == '}' ==> AllSpaces(p) && depth > 0)
    ensures Meaning(p + [c] + r, depth) ==
            if c == ';' then var m := Meaning(r, depth); Script([p] + m.instructions, m.end)
            else Meaning(r, if c == '{' then depth + 1 else depth - 1)
  {
    hide FirstDelimiter, AllSpaces, Plain;
    NextUnfold(p, c, r, depth);
  }

  lemma {:induction false} WrittenIsReadBefore(w: Written, r: string, depth: nat)
    requires w.Legal()
    ensures Meaning(w.Print() + r, depth) == Script(w.Instructions() + Meaning(r, depth).instructions, Meaning(r, depth).end)
  {
    hide Meaning, Plain, AllSpaces;
    match w
    case Nothing =>
      assert w.Print() + r == r;
    case Instr(text, andThen) =>
      WrittenIsReadBefore(andThen, r, depth);
      MeaningStep(text, ';', andThen.Print() + r, depth);
      assert w.Print() + r == text + [';'] + (andThen.Print() + r);
    case Block(header, body, gap, andThen) =>
      var rest := gap + ['}'] + (andThen.Print() + r);
      WrittenIsReadBefore(andThen, r, depth);
      SpacesArePlain(gap);
      MeaningStep(gap, '}', andThen.Print() + r, depth + 1);
      WrittenIsReadBefore(body, rest, depth + 1);
      MeaningStep(header, '{', body.Print() + rest, depth);
      assert w.Print() + r == header + ['{'] + (body.Print() + rest);
  }

  /** Every script as it is written is read back: its instructions, in order, and a normal end. */
  lemma WrittenIsRead(w: Written, tail: string)
    requires w.Legal() && Plain(tail)
    ensures Meaning(w.Print() + tail, 0) == Script(w.Instructions(), Eof)
  {
    hide Plain, Written.Print, Written.Instructions, Written.Legal;
    WrittenIsReadBefore(w, tail, 0);
    NextPlain(tail, 0);
  }

  // ------------------------------------------------------------------------------------------
  // When a script is read to its end
  // ------------------------------------------------------------------------------------------

  function Count(s: string, c: char): nat {
    if s == "" then 0 else (if s[0] == c then 1 else 0) + Count(s[1..], c)
  }

  lemma {:induction false} CountConcat(s: string, t: string, c: char)
    ensures Count(s + t, c) == Count(s, c) + Count(t, c)
  {
    if s == "" {
      assert s + t == t;
    } else {
      assert (s + t)[1..] == s[1..] + t;
      CountConcat(s[1..], t, c);
    }
  }

  lemma {:induction false} CountPlain(s: string, c: char)
    requires Plain(s) && IsDelimiter(c)
    ensures Count(s, c) == 0
  {
    if s != "" {
      assert s[0] in s;
      CountPlain(s[1..], c);
    }
  }

  /** Opening braces minus closing ones. */
  function Opened(s: string): int {
    Count(s, '{') - Count(s, '}')
  }

  /** Between position k and the delimiter before it there is only white space. */
  predicate OnlySpacesBefore(s: string, k: nat)
    requires k <= |s|
  {
    k == 0 || IsDelimiter(s[k - 1]) || (IsSpace(s[k - 1]) && OnlySpacesBefore(s, k - 1))
  }

  /** Never more closing than opening braces, none left open, and nothing unfinished before a closing one. */
  ghost predicate WellNested(s: string, depth: nat) {
    && (forall i | 0 <= i <= |s| :: depth + Opened(s[..i]) >= 0)
    && depth + Opened(s) == 0
    && (forall k | 0 <= k < |s| && s[k] == '}' :: OnlySpacesBefore(s, k))
  }

  lemma {:induction false} SpacesInPlain(p: string, r: string, k: nat)
    requires Plain(p) && k <= |p|
    ensures OnlySpacesBefore(p + r, k) <==> AllSpaces(p[..k])
  {
    if k > 0 {
      SpacesInPlain(p, r, k - 1);
      assert (p + r)[k - 1] == p[k - 1] && p[k - 1] in p;
      assert p[..k] == p[..k - 1] + [p[k - 1]];
    }
  }

  lemma {:induction false} SpacesBehindDelimiter(p: string, c: char, r: string, k: nat)
    requires IsDelimiter(c) && k <= |r|
    ensures OnlySpacesBefore(p + [c] + r, |p| + 1 + k) <==> OnlySpacesBefore(r, k)
  {
    var s := p + [c] + r;
    if k == 0 {
      assert s[|p|] == c;
    } else {
      SpacesBehindDelimiter(p, c, r, k - 1);
      assert s[|p| + k] == r[k - 1];
    }
  }

  /** The depth behind a delimiter. */
  function After(c: char, depth: int): int {
    if c == '{' then depth + 1 else if c == '}' then depth - 1 else depth
  }

  lemma OpenedPlain(p: string)
    requires Plain(p)
    ensures Opened(p) == 0
  {
    CountPlain(p, '{');
    CountPlain(p, '}');
  }

  /** The braces of a prefix that ends in the first piece or behind it. */
  lemma PrefixOpened(p: string, c: char, r: string, i: nat)
    requires Plain(p) && IsDelimiter(c) && i <= |p| + 1 + |r|
    ensures Opened((p + [c] + r)[..i]) == if i <= |p| then 0 else After(c, Opened(r[..i - |p| - 1]))
  {
    var s := p + [c] + r;
    if i <= |p| {
      assert s[..i] == p[..i];
      OpenedPlain(p[..i]);
    } else {
      var t := [c] + r[..i - |p| - 1];
      assert s[..i] == p + t;
      CountConcat(p, t, '{');
      CountConcat(p, t, '}');
      OpenedPlain(p);
      assert t[1..] == r[..i - |p| - 1];
    }
  }

  lemma WellNestedPlain(s: string, depth: nat)
    requires Plain(s)
    ensures WellNested(s, depth) <==> depth == 0
  {
    hide Opened;
    forall i | 0 <= i <= |s|
      ensures Opened(s[..i]) == 0
    {
      OpenedPlain(s[..i]);
    }
    OpenedPlain(s);
    assert forall k | 0 <= k < |s| :: s[k] in s;
  }

  ghost predicate Pieces(p: string, c: char, r: string, s: string) {
    && Plain(p) && IsDelimiter(c) && s == p + [c] + r
    && (forall i | 0 <= i <= |s| :: Opened(s[..i]) == if i <= |p| then 0 else After(c, Opened(r[..i - |p| - 1])))
    && Opened(s) == After(c, Opened(r))
    && (OnlySpacesBefore(s, |p|) <==> AllSpaces(p))
    && (forall k | 0 <= k < |r| :: OnlySpacesBefore(s, |p| + 1 + k) <==> OnlySpacesBefore(r, k))
  }

  lemma PiecesHold(p: string, c: char, r: string)
    requires Plain(p) && IsDelimiter(c)
    ensures Pieces(p, c, r, p + [c] + r)
  {
    hide OnlySpacesBefore, AllSpaces, Opened, After;
    var s := p + [c] + r;
    forall i | 0 <= i <= |s|
      ensures Opened(s[..i]) == if i <= |p| then 0 else After(c, Opened(r[..i - |p| - 1]))
    {
      PrefixOpened(p, c, r, i);
    }
    assert s[..|s|] == s && r[..|r|] == r;
    assert s == p + ([c] + r) && p[..|p|] == p;
    SpacesInPlain(p, [c] + r, |p|);
    forall k | 0 <= k < |r|
      ensures OnlySpacesBefore(s, |p| + 1 + k) <==> OnlySpacesBefore(r, k)
    {
      SpacesBehindDelimiter(p, c, r, k);
    }
  }

  lemma WellNestedRest(p: string, c: char, r: string, s: string, depth: nat)
    requires Pieces(p, c, r, s) && WellNested(s, depth)
    ensures (c == '}' ==> AllSpaces(p)) && After(c, depth) >= 0 && WellNested(r, After(c, depth))
  {
    hide OnlySpacesBefore, AllSpaces, Opened;
    assert s[|p|] == c;
    forall i | 0 <= i <= |r|
      ensures After(c, depth) + Opened(r[..i]) >= 0
    {
      assert depth + Opened(s[..|p| + 1 + i]) >= 0;
    }
    assert r[..0] == [];
    OpenedPlain([]);
    forall k | 0 <= k < |r| && r[k] == '}'
      ensures OnlySpacesBefore(r, k)
    {
      assert s[|p| + 1 + k] == r[k];
    }
  }

  lemma WellNestedWhole(p: string, c: char, r: string, s: string, depth: nat)
    requires Pieces(p, c, r, s)
    requires (c == '}' ==> AllSpaces(p)) && After(c, depth) >= 0 && WellNested(r, After(c, depth))
    ensures WellNested(s, depth)
  {
    hide OnlySpacesBefore, AllSpaces, Opened;
    forall i | 0 <= i <= |s|
      ensures depth + Opened(s[..i]) >= 0
    {
      if i > |p| {
        assert After(c, depth) + Opened(r[..i - |p| - 1]) >= 0;
      }
    }
    assert forall k | 0 <= k < |p| :: p[k] in p;
    forall k | 0 <= k < |s| && s[k] == '}'
      ensures OnlySpacesBefore(s, k)
    {
      if k > |p| {
        var m := k - |p| - 1;
        assert s[|p| + 1 + m] == r[m];
      }
    }
  }

  /** Good nesting can be checked piece by piece. */
  lemma WellNestedUnfold(p: string, c: char, r: string, depth: nat)
    requires Plain(p) && IsDelimiter(c)
    ensures WellNested(p + [c] + r, depth) <==>
            (c == '}' ==> AllSpaces(p)) && After(c, depth) >= 0 && WellNested(r, After(c, depth))
  {
    hide Pieces, WellNested, AllSpaces;
    var s := p + [c] + r;
    PiecesHold(p, c, r);
    if WellNested(s, depth) {
      WellNestedRest(p, c, r, s, depth);
    } else if (c == '}' ==> AllSpaces(p)) && After(c, depth) >= 0 && WellNested(r, After(c, depth)) {
      WellNestedWhole(p, c, r, s, depth);
    }
  }

  /** The script is read to its end exactly when the text without comments is well nested. */
  lemma {:induction false} EofExactlyWhenWellNested(s: string, depth: nat)
    ensures Meaning(s, depth).end == Eof <==> WellNested(s, depth)
    decreases |s|
  {
    hide WellNested, OnlySpacesBefore, AllSpaces;
    var i := FirstDelimiter(s);
    if i == |s| {
      assert s[..i] == s;
      WellNestedPlain(s, depth);
    } else {
      var p, c, r := s[..i], s[i], s[i + 1..];
      assert s == p + [c] + r;
      WellNestedUnfold(p, c, r, depth);
      if After(c, depth) >= 0 {
        EofExactlyWhenWellNested(r, After(c, depth));
      }
    }
  }

  lemma SemicolonsUnfold(p: string, c: char, r: string)
    requires Plain(p)
    ensures Count(p + [c] + r, ';') == (if c == ';' then 1 else 0) + Count(r, ';')
  {
    assert p + [c] + r == p + ([c] + r);
    CountConcat(p, [c] + r, ';');
    CountPlain(p, ';');
    assert ([c] + r)[1..] == r;
  }

  /** A script that is read to its end has as many instructions as semicolons. */
  lemma {:induction false} OneInstructionPerSemicolon(s: string, depth: nat)
    requires Meaning(s, depth).end == Eof
    ensures |Meaning(s, depth).instructions| == Count(s, ';')
    decreases |s|
  {
    hide AllSpaces, Count;
    var i := FirstDelimiter(s);
    if i < |s| {
      var r := s[i + 1..];
      assert s == s[..i] + [s[i]] + r;
      SemicolonsUnfold(s[..i], s[i], r);
      OneInstructionPerSemicolon(r, After(s[i], depth));
    } else {
      assert s[..i] == s;
      CountPlain(s, ';');
    }
  }

  // ------------------------------------------------------------------------------------------
  // Reading character by character
  // ------------------------------------------------------------------------------------------

  /** What is still to come, inside a comment or outside. */
  function Remaining(t: string, comment: bool): string {
    Strip(if comment then DropLine(t) else t)
  }

  lemma RemainingUnfold(t: string, comment: bool)
    requires t != ""
    ensures Remaining(t, comment) ==
            if t[0] == '#' then Remaining(t[1..], true)
            else if comment && t[0] != '\n' then Remaining(t[1..], true)
            else [t[0]] + Remaining(t[1..], false)
  {
  }

  lemma {:induction false} FirstDelimiterIs(p: string, c: char, u: string)
    requires Plain(p) && IsDelimiter(c)
    ensures FirstDelimiter(p + [c] + u) == |p| && FirstDelimiter(p) == |p|
  {
    if p != "" {
      assert p[0] in p;
      assert (p + [c] + u)[1..] == p[1..] + [c] + u;
      FirstDelimiterIs(p[1..], c, u);
    }
  }

  lemma NextUnfold(p: string, c: char, u: string, depth: nat)
    requires Plain(p) && IsDelimiter(c)
    ensures Next(p + [c] + u, depth) ==
            if c == ';' then Step(Instruction(p), u, depth)
            else if c == '{' then Next(u, depth + 1)
            else if !AllSpaces(p) then Step(MissingSemicolon, u, depth)
            else if depth == 0 then Step(UnmatchedClose, u, depth)
            else Next(u, depth - 1)
  {
    hide AllSpaces;
    FirstDelimiterIs(p, c, u);
    var s := p + [c] + u;
    assert s[..|p|] == p && s[|p|] == c && s[|p| + 1..] == u;
  }

  lemma NextPlain(p: string, depth: nat)
    requires Plain(p)
    ensures Next(p, depth) == Step(if depth > 0 then UnclosedBlock else Eof, "", depth)
  {
    FirstDelimiterIs(p, ';', "");
  }

  lemma CountSnoc(s: string, d: char, c: char)
    ensures Count(s + [d], c) == Count(s, c) + if d == c then 1 else 0
  {
    CountConcat(s, [d], c);
    assert [d][1..] == [];
  }

  class FileParser {
    const text: string       // the file
    var pos: nat             // how much of it has been read
    var instructionBuffer: array<char>
    var lineNbr: nat
    var openControlBlocks: int

    predicate Valid()
      reads this
    {
      pos <= |text| && lineNbr == 1 + Count(text[..pos], '\n')
    }

    constructor (text: string)
      ensures Valid() && this.text == text && pos == 0 && openControlBlocks == 0 && fresh(instructionBuffer)
    {
      this.text := text;
      pos, lineNbr, openControlBlocks := 0, 1, 0;
      instructionBuffer := new char[0];
    }

    /** Makes room for one more character. */
    method Grow(offset: nat)
      requires offset <= instructionBuffer.Length
      modifies this`instructionBuffer
      ensures offset < instructionBuffer.Length
      ensures instructionBuffer == old(instructionBuffer) || fresh(instructionBuffer)
      ensures instructionBuffer[..offset] == old(instructionBuffer[..offset])
    {
      if offset >= instructionBuffer.Length {
        var newbuf := new char[instructionBuffer.Length + 10 * 1024];
        forall i | 0 <= i < offset {
          newbuf[i] := instructionBuffer[i];
        }
        instructionBuffer := newbuf;
      }
    }

    /** The first of the first n characters in the buffer that is not white space. */
    method SkipWhitespaces(n: nat) returns (p: nat)
      requires n <= instructionBuffer.Length && n > 0 && !IsSpace(instructionBuffer[n - 1])
      ensures p < n && !IsSpace(instructionBuffer[p]) && AllSpaces(instructionBuffer[..p])
    {
      p := 0;
      while IsSpace(instructionBuffer[p])
        invariant p < n && AllSpaces(instructionBuffer[..p])
        decreases n - p
      {
        assert instructionBuffer[..p + 1] == instructionBuffer[..p] + [instructionBuffer[p]];
        p := p + 1;
      }
    }

    /** Reads the next character; the caller counts the lines. */
    method GetChar() returns (c: char)
      requires Valid() && pos < |text|
      modifies this`pos
      ensures pos == old(pos) + 1 && c == text[old(pos)] && text[old(pos)..][0] == c && text[old(pos)..][1..] == text[pos..]
      ensures lineNbr + (if c == '\n' then 1 else 0) == 1 + Count(text[..pos], '\n')
    {
      c := text[pos];
      CountSnoc(text[..pos], c, '\n');
      assert text[..pos + 1] == text[..pos] + [c];
      pos := pos + 1;
    }

    /** Puts the closing brace behind the pending text and looks for what comes first. */
    method NothingUnfinished(offset: nat) returns (finished: bool)
      requires offset < instructionBuffer.Length && Plain(instructionBuffer[..offset])
      modifies instructionBuffer
      ensures finished <==> AllSpaces(old(instructionBuffer[..offset]))
    {
      ghost var pending := instructionBuffer[..offset];
      instructionBuffer[offset] := '}';
      var p := SkipWhitespaces(offset + 1);
      assert pending == instructionBuffer[..offset];
      finished := instructionBuffer[p] == '}';
      if p < offset {
        assert pending[p] in pending && pending[p] == instructionBuffer[p];
      } else {
        assert instructionBuffer[..p] == pending;
      }
    }

    /** Ends the instruction, opens a block, or closes one. */
    method TakeDelimiter(c: char, offset: nat, ghost pending: string, ghost rest: string) returns (stop: bool, o: Outcome)
      requires offset < instructionBuffer.Length && pending == instructionBuffer[..offset]
      requires Plain(pending) && IsDelimiter(c) && openControlBlocks >= 0
      modifies this`openControlBlocks, instructionBuffer
      ensures var n := Next(pending + [c] + rest, old(openControlBlocks));
              if stop then o == n.outcome && !o.Eof? && !o.UnclosedBlock?
                           && (o.Instruction? ==> rest == n.rest && openControlBlocks == n.depth)
              else openControlBlocks >= 0 && n == Next(rest, openControlBlocks)
    {
      hide Next, Plain, AllSpaces;
      NextUnfold(pending, c, rest, openControlBlocks);
      if c == ';' {
        return true, Instruction(instructionBuffer[..offset]);
      } else if c == '{' {
        openControlBlocks := openControlBlocks + 1;
      } else {
        openControlBlocks := openControlBlocks - 1;
        var finished := NothingUnfinished(offset);
        if !finished {
          return true, MissingSemicolon;
        }
        if openControlBlocks < 0 {
          return true, UnmatchedClose;
        }
      }
      stop, o := false, Eof;
    }

    /** Delivers one instruction, the end of the file, or an error. */
    method Parse() returns (o: Outcome)
      requires Valid() && openControlBlocks >= 0
      modifies this, instructionBuffer
      ensures Valid()
      ensures instructionBuffer == old(instructionBuffer) || fresh(instructionBuffer)
      ensures var n := Next(Strip(old(text[pos..])), old(openControlBlocks));
              && o == n.outcome
              && (o.Instruction? ==> Strip(text[pos..]) == n.rest && openControlBlocks == n.depth)
      ensures o.Eof? || o.UnclosedBlock? ==> pos == |text|
      ensures pos >= old(pos) && (o.Instruction? ==> pos > old(pos))
    {
      hide Next, Strip, Plain, AllSpaces, Remaining, Count;
      var offset, comment := 0, false;
      ghost var next := Next(Strip(text[pos..]), openControlBlocks);
      ghost var pending: string := "";
      NothingPending();
      assert pending + Strip(text[pos..]) == Strip(text[pos..]);
      OutsideComment(text[pos..]);
      while pos < |text|
        invariant old(pos) <= pos && Valid() && openControlBlocks >= 0
        invariant instructionBuffer == old(instructionBuffer) || fresh(instructionBuffer)
        invariant offset <= instructionBuffer.Length && pending == instructionBuffer[..offset] && Plain(pending)
        invariant Next(pending + Remaining(text[pos..], comment), openControlBlocks) == next
        decreases |text| - pos
      {
        RemainingUnfold(text[pos..], comment);
        var c := GetChar();
        Grow(offset);
        if c == '#' {
          comment := true;
        } else {
          if c == '\n' {
            lineNbr := lineNbr + 1;
            comment := false;
          }
          if !comment {
            ghost var rest := Remaining(text[pos..], false);
            OutsideComment(text[pos..]);
            assert pending + ([c] + rest) == pending + [c] + rest;
            if IsDelimiter(c) {
              var stop, o := TakeDelimiter(c, offset, pending, rest);
              if stop {
                return o;
              }
              offset, pending := 0, "";
              NothingPending();
              assert pending + rest == rest;
            } else {
              instructionBuffer[offset] := c;
              offset := offset + 1;
              PlainSnoc(pending, c);
              pending := pending + [c];
            }
          }
        }
      }
      NothingRemains(comment);
      assert text[pos..] == "" && pending + "" == pending;
      NextPlain(pending, openControlBlocks);
      return if openControlBlocks > 0 then UnclosedBlock else Eof;
    }
  }

  lemma OutsideComment(t: string)
    ensures Remaining(t, false) == Strip(t)
  {
  }

  lemma NothingPending()
    ensures Plain("")
  {
  }

  lemma PlainSnoc(p: string, c: char)
    requires Plain(p) && !IsDelimiter(c)
    ensures Plain(p + [c])
  {
  }

  lemma NothingRemains(comment: bool)
    ensures Remaining("", comment) == ""
  {
  }

  /** Calls the parser until it delivers no more instructions. */
  method ReadScript(text: string) returns (instructions: seq<string>, end: Outcome, lines: nat)
    ensures Script(instructions, end) == Meaning(Strip(text), 0)
    ensures end.Eof? || end.UnclosedBlock? ==> lines == 1 + Count(text, '\n')
  {
    hide Next, Strip, Count;
    var parser := new FileParser(text);
    instructions := [];
    assert text[0..] == text;
    var o := parser.Parse();
    while o.Instruction?
      invariant parser.Valid() && parser.text == text && fresh(parser) && fresh(parser.instructionBuffer)
      invariant o.Instruction? ==> parser.openControlBlocks >= 0
      invariant o.Instruction? ==>
        var m := Meaning(Strip(text[parser.pos..]), parser.openControlBlocks);
        Script(instructions + [o.text] + m.instructions, m.end) == Meaning(Strip(text), 0)
      invariant !o.Instruction? ==> Script(instructions, o) == Meaning(Strip(text), 0)
      invariant o.Eof? || o.UnclosedBlock? ==> parser.pos == |text|
      decreases |text| - parser.pos, if o.Instruction? then 1 else 0
    {
      instructions := instructions + [o.text];
      o := parser.Parse();
    }
    end, lines := o, parser.lineNbr;
    assert text[..|text|] == text;
  }

  /** Reading a script to its end means the braces of the text without comments are balanced on every prefix
      and nothing unfinished stands in front of a closing one; then no instruction is lost. */
  lemma ScriptIsReadExactlyWhen(text: string)
    ensures Meaning(Strip(text), 0).end == Eof <==> WellNested(Strip(text), 0)
    ensures Meaning(Strip(text), 0).end == Eof ==> |Meaning(Strip(text), 0).instructions| == Count(Strip(text), ';')
  {
    hide *;
    EofExactlyWhenWellNested(Strip(text), 0);
    if Meaning(Strip(text), 0).end == Eof {
      OneInstructionPerSemicolon(Strip(text), 0);
    }
  }
}
