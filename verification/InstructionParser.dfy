/** Parsing one instruction with instructions embedded in its parameters. What the protocols make of their
    parameters is arbitrary here; which level sees which setting, and when parsing ends, is not. */
module InstructionParser {
  import opened ParseHelper
  import opened Parameters
  import opened InstructionHead

  const MAX_DEPTH := 8
  const EMBEDDED_MTU := 32 * 1024

  // ------------------------------------------------------------------------------------------
  // What is accepted
  // ------------------------------------------------------------------------------------------

  /** Which parameter may hold an embedded instruction, and whether that one is to have an Ethernet header. */
  datatype Protocol = Unknown | Known(payload: Option<string>, noEthHeader: bool)

  /** What an instruction is compiled under, apart from settings that never change. */
  datatype Context = Context(mtu: nat, noEthHeader: bool)

  /** The protocols: which keywords there are, when the parameters are rejected before an embedded instruction is
      compiled, and how long the frame becomes, given the length of the embedded frame; none if it is rejected. */
  datatype Protocols = Protocols(protocol: string -> Protocol,
                                 rejects: (string, seq<Parameter>, Context) -> bool,
                                 frame: (string, seq<Parameter>, Context, Option<nat>) -> Option<nat>)

  /** Where the instruction embedded in the one at p starts. */
  function Embedded(ps: Protocols, s: Text, p: nat, ignoreTrailingGarbage: bool): (r: Option<nat>)
    requires p <= |s|
    ensures r.Some? ==> p < r.value <= |s|
  {
    var h := ScanHead(s, p);
    if h.BadHead? then None
    else
      ListLocated(s, p, ignoreTrailingGarbage);
      var list := Scan(s, h.open, ignoreTrailingGarbage).parameters;
      var known := ps.protocol(h.keyword);
      if known.Unknown? || known.payload.None? then None
      else
        var i := First(list, 0, None, known.payload.value);
        if i.Some? && IsEmbedded(list[i.value]) then Some(list[i.value].valueAt + 1) else None
  }

  predicate IsEmbedded(v: Parameter) {
    v.value != "" && v.value[0] == '<'
  }

  /** The instruction at p can be read and is not rejected before what is embedded in it is compiled. */
  predicate Readable(ps: Protocols, s: Text, p: nat, ignoreTrailingGarbage: bool, c: Context)
    requires p <= |s|
  {
    var h := ScanHead(s, p);
    && h.Head?
    && Scan(s, h.open, ignoreTrailingGarbage).ok
    && ps.protocol(h.keyword).Known?
    && !ps.rejects(h.keyword, Scan(s, h.open, ignoreTrailingGarbage).parameters, c)
  }

  /** Embedded instructions are not limited by the configured MTU. */
  function Inner(ps: Protocols, keyword: string): Context {
    Context(EMBEDDED_MTU, ps.protocol(keyword).Known? && ps.protocol(keyword).noEthHeader)
  }

  /** The length of the frame the instruction at p compiles to, from the innermost level out. */
  function FrameOf(ps: Protocols, s: Text, p: nat, ignoreTrailingGarbage: bool, c: Context): Option<nat>
    requires p <= |s|
    decreases |s| - p
  {
    if !Readable(ps, s, p, ignoreTrailingGarbage, c) then None
    else
      var h := ScanHead(s, p);
      var list := Scan(s, h.open, ignoreTrailingGarbage).parameters;
      var e := Embedded(ps, s, p, ignoreTrailingGarbage);
      if e.None? then ps.frame(h.keyword, list, c, None)
      else
        var inner := FrameOf(ps, s, e.value, true, Inner(ps, h.keyword));
        if inner.None? then None else ps.frame(h.keyword, list, c, inner)
  }

  /** How deep instructions are nested. */
  function Levels(ps: Protocols, s: Text, p: nat, ignoreTrailingGarbage: bool): (n: nat)
    requires p <= |s|
    ensures n > 0
    decreases |s| - p
  {
    var e := Embedded(ps, s, p, ignoreTrailingGarbage);
    if e.None? then 1 else 1 + Levels(ps, s, e.value, true)
  }

  /** The value of a parameter that was read stands where the parameter says. */
  ghost predicate Located(s: Text, p: nat, v: Parameter) {
    IsEmbedded(v) ==> p < v.valueAt < |s| && s[v.valueAt] == '<'
  }

  lemma ScannedItemLocated(s: Text, p: nat, index: nat)
    requires p <= |s| && ScanItem(s, p, index).Item?
    ensures Located(s, p, ScanItem(s, p, index).parameter)
  {
    hide End;
  }

  /** Of the values that can be read, exactly the bracketed ones are embedded instructions. */
  lemma EmbeddedExactlyWhenBracketed(s: Text, p: nat, index: nat)
    requires p <= |s| && ScanItem(s, p, index).Item?
    ensures var v := ScanItem(s, p, index).parameter; IsEmbedded(v) <==> Enclosed(v.value, '<', '>')
  {
    hide ScanItem, End;
    var w := ScannedItemIsWritten(s, p, index);
    assert w.Pair? ==> LegalValue(w.value);
  }

  lemma {:induction false} ScannedListLocated(s: Text, p: nat, before: seq<Parameter>, q: nat)
    requires q <= p <= |s| && forall v | v in before :: Located(s, q, v)
    ensures forall v | v in ScanItems(s, p, before).parameters :: Located(s, q, v)
    decreases |s| - p
  {
    hide End, ScanItem, Located;
    if p < |s| && s[p] != ')' {
      var i := ScanItem(s, p, |before|);
      if i.Item? {
        ScannedItemLocated(s, p, |before|);
        LocatedEarlier(s, q, p, i.parameter);
        var f := End(s, i.next, Spaces);
        if EndsItem(At(s, f)) {
          ScannedListLocated(s, if s[f] == ',' then f + 1 else f, before + [i.parameter], q);
        }
      }
    }
  }

  lemma LocatedEarlier(s: Text, q: nat, p: nat, v: Parameter)
    requires q <= p && Located(s, p, v)
    ensures Located(s, q, v)
  {
  }

  lemma ListLocated(s: Text, p: nat, ignoreTrailingGarbage: bool)
    requires p <= |s| && ScanHead(s, p).Head?
    ensures var list := Scan(s, ScanHead(s, p).open, ignoreTrailingGarbage).parameters;
            forall i | 0 <= i < |list| :: Located(s, p, list[i])
  {
    hide ScanItems, Located;
    ScannedListLocated(s, ScanHead(s, p).open + 1, [], p);
  }

  function Enlarged(n: nat): (s: seq<nat>)
    ensures |s| == n && forall i | 0 <= i < n :: s[i] == EMBEDDED_MTU
  {
    seq(n, _ => EMBEDDED_MTU)
  }

  /** A bracketed value ends at the first closing bracket: written with one closing bracket per level, an
      instruction with two levels of nesting is a syntax error at the second bracket. */
  lemma BalancedBracketsRejected(s: Text, name: string, inner: string, rest: string)
    requires LegalName(name) && '>' !in inner && '\0' !in name && '\0' !in inner
    requires s == "(" + (name + "=" + ("<" + inner + ">") + ")" + (">" + rest))
    ensures Scan(s, 0, false) == Outcome([Parameter(name, "<" + inner + ">", |name| + 2, 0)], |name| + |inner| + 5, false)
    ensures s[|name| + |inner| + 5] == '>'
  {
    hide *;
    var w := Pair("", name, "", "", "<" + inner + ">", "");
    BracketedItem(name, inner);
    BracketBehindList(s, w, Print([w], false), rest);
  }

  lemma BracketBehindList(s: Text, w: Written, text: string, rest: string)
    requires w.Legal() && text == Print([w], false) && s == "(" + text + (">" + rest)
    ensures Scan(s, 0, false) == Outcome([w.Meaning(1, 0)], |text| + 1, false) && s[|text| + 1] == '>'
  {
    hide ScanItems, Print, Meanings, Written.Legal, Written.Meaning, End;
    assert Occurs(s, 1, text) by { assert s[1..1 + |text|] == text; }
    assert AllLegal([w]);
    ScanPrinted(s, 1, [], [w], false);
    MeaningsPrepend(w, [], 1, 0);
    assert [w] + [] == [w] && [] + [w.Meaning(1, 0)] == [w.Meaning(1, 0)];
    EndUnique(s, |text| + 1, Spaces, |text| + 1);
  }

  lemma BracketedItem(name: string, inner: string)
    requires LegalName(name) && '>' !in inner && '\0' !in name && '\0' !in inner
    ensures var w := Pair("", name, "", "", "<" + inner + ">", "");
            && w.Legal() && Print([w], false) == name + "=" + ("<" + inner + ">") + ")"
            && w.Meaning(1, 0) == Parameter(name, "<" + inner + ">", |name| + 2, 0)
  {
    var value := "<" + inner + ">";
    assert value[1..|value| - 1] == inner;
    assert Enclosed(value, '<', '>');
    PrintPrepends(Pair("", name, "", "", value, ""), [], false);
  }

  // ------------------------------------------------------------------------------------------
  // The parser
  // ------------------------------------------------------------------------------------------

  /** The settings every part of the program shares. */
  class Settings {
    var mtu: nat

    constructor (mtu: nat)
      ensures this.mtu == mtu
    {
      this.mtu := mtu;
    }
  }

  datatype Compilation = Done(length: nat) | FormatFailed | ParseFailed

  class InstructionParser {
    const protocols: Protocols
    const settings: Settings
    var currentInstruction: Option<nat>
    var recursionDepth: nat
    ghost var built: seq<nat>   // the MTU each packet was built with, outermost first

    constructor (protocols: Protocols, settings: Settings)
      ensures this.protocols == protocols && this.settings == settings
      ensures currentInstruction == None && recursionDepth == 0 && built == []
    {
      this.protocols, this.settings := protocols, settings;
      currentInstruction, recursionDepth, built := None, 0, [];
    }

    /** Digits, with a plus sign in front when the time is relative, and a colon behind. */
    method ParseTimestamp(s: Text, p0: nat) returns (f: Front)
      requires p0 <= |s|
      ensures f == ScanTimestamp(s, p0)
    {
      hide End, CharClass.Has, Ticks, AllDigits;
      var p := SkipWhitespaces(s, p0);
      if !IsDigit(At(s, p)) && At(s, p) != '+' {
        return Front(None, p);
      }
      var isAbsolute := At(s, p) != '+';
      var digits := if isAbsolute then p else p + 1;
      var end := NextTokenEnd(s, digits, false, true, "");
      if end == digits {
        return BadFront;
      }
      DigitsEnd(s, digits);
      var ticks := Ticks(s[digits..end]);
      p := SkipWhitespaces(s, end);
      if At(s, p) != ':' {
        return BadFront;
      }
      f := Front(Some(Timestamp(isAbsolute, ticks)), p + 1);
    }

    method ParseHead(s: Text, p0: nat) returns (h: Head)
      requires p0 <= |s|
      ensures h == ScanHead(s, p0)
    {
      hide End, CharClass.Has, ScanTimestamp;
      var front := ParseTimestamp(s, p0);
      if front.BadFront? {
        return BadHead;
      }
      var found, keyword := NextTokenStart(s, front.next, true, false, "");
      if !found {
        return BadHead;
      }
      var keywordEnd := NextTokenEnd(s, keyword, true, true, "-");
      var p := SkipWhitespaces(s, keywordEnd);
      if At(s, p) != '(' {
        return BadHead;
      }
      h := Head(front.timestamp, s[keyword..keywordEnd], p);
    }

    /** Whatever goes wrong, the MTU is afterwards what it was. */
    method Parse(s: Text, p: nat, ignoreTrailingGarbage: bool, noEthHeader: bool) returns (ok: bool, length: nat)
      requires p <= |s|
      modifies this, settings
      ensures settings.mtu == old(settings.mtu)
      ensures var frame := FrameOf(protocols, s, p, ignoreTrailingGarbage, Context(old(settings.mtu), noEthHeader));
              && (ok <==> frame.Some?
                          && old(recursionDepth) + Levels(protocols, s, p, ignoreTrailingGarbage) <= MAX_DEPTH)
              && (ok ==> length == frame.value)
      ensures ok ==> recursionDepth == old(recursionDepth) && currentInstruction == old(currentInstruction)
      ensures ok ==> built == old(built) + [old(settings.mtu)]
                              + Enlarged(Levels(protocols, s, p, ignoreTrailingGarbage) - 1)
      ensures !ok ==> old(recursionDepth) <= recursionDepth
      ensures !ok ==> currentInstruction.Some? && p <= currentInstruction.value <= |s|
      decreases |s| - p, 2
    {
      hide ScanHead, Scan, Levels, FrameOf, Embedded;
      ghost var c := Context(settings.mtu, noEthHeader);
      Unfold(protocols, s, p, ignoreTrailingGarbage, c);
      length := 0;
      var prevInstruction := currentInstruction;
      currentInstruction := Some(p);
      var h := ParseHead(s, p);
      if h.BadHead? {
        return false, 0;
      }
      var params := new ParameterList(s, h.open, ignoreTrailingGarbage);
      if params.parseError != None {
        return false, 0;
      }
      recursionDepth := recursionDepth + 1;
      if recursionDepth > 8 {
        return false, 0;
      }
      var outcome := Compile(s, p, ignoreTrailingGarbage, noEthHeader, h, params);
      ok := outcome.Done?;
      if ok {
        length := outcome.length;
        currentInstruction := prevInstruction;
      }
      if !outcome.ParseFailed? {
        recursionDepth := recursionDepth - 1;
      }
    }

    /** The part of Parse that depends on the protocol. Only rejected parameters are caught and turned into a
        parse error there; parse errors of embedded instructions pass. */
    method Compile(s: Text, p: nat, ignoreTrailingGarbage: bool, noEthHeader: bool, h: Head, params: ParameterList)
      returns (outcome: Compilation)
      requires p <= |s| && h == ScanHead(s, p) && h.Head? && recursionDepth > 0
      requires params.Valid() && Scan(s, h.open, ignoreTrailingGarbage).ok
      requires params.list == Scan(s, h.open, ignoreTrailingGarbage).parameters
      requires currentInstruction == Some(p)
      modifies this, settings, params
      ensures settings.mtu == old(settings.mtu)
      ensures var frame := FrameOf(protocols, s, p, ignoreTrailingGarbage, Context(old(settings.mtu), noEthHeader));
              var levels := Levels(protocols, s, p, ignoreTrailingGarbage);
              var deep := Embedded(protocols, s, p, ignoreTrailingGarbage).Some?;
              && (outcome.Done? <==> (frame.Some? && (deep ==> old(recursionDepth) - 1 + levels <= MAX_DEPTH)))
              && (outcome.Done? ==> outcome.length == frame.value)
      ensures !outcome.ParseFailed? ==> recursionDepth == old(recursionDepth) && currentInstruction == Some(p)
      ensures outcome.Done? ==>
                built == old(built) + [old(settings.mtu)] + Enlarged(Levels(protocols, s, p, ignoreTrailingGarbage) - 1)
      ensures old(recursionDepth) <= recursionDepth
      ensures currentInstruction.Some? && p <= currentInstruction.value <= |s|
      decreases |s| - p, 1
    {
      hide ScanHead, Scan, First, IsEmbedded, Levels, FrameOf, MAX_DEPTH;
      var c := Context(settings.mtu, noEthHeader);
      Unfold(protocols, s, p, ignoreTrailingGarbage, c);
      var protocol := protocols.protocol(h.keyword);
      if protocol.Unknown? {
        return ParseFailed;
      }
      built := built + [settings.mtu];
      if protocols.rejects(h.keyword, params.list, c) {
        return FormatFailed;
      }
      var embedded: Option<nat> := None;
      if protocol.payload.Some? {
        var found, i := params.FindParameter(None, None, protocol.payload.value, true);
        if i.Some? {
          ghost var v := params.list[i.value];
          assert IsEmbedded(v) ==> Embedded(protocols, s, p, ignoreTrailingGarbage) == Some(v.valueAt + 1);
          var ok;
          ok, embedded := CompileEmbedded(s, params.list[i.value], protocol.noEthHeader, p);
          if !ok {
            return ParseFailed;
          }
        }
      }
      var frame := protocols.frame(h.keyword, params.list, c, embedded);
      if frame.None? {
        return FormatFailed;
      }
      outcome := Done(frame.value);
    }

    /** Compiles an embedded instruction with a larger MTU; any other value is left to the protocol. */
    method CompileEmbedded(s: Text, emb: Parameter, noEthHeader: bool, ghost p: nat) returns (ok: bool, length: Option<nat>)
      requires p <= |s| && (IsEmbedded(emb) ==> p < emb.valueAt + 1 <= |s|)
      modifies this, settings
      ensures settings.mtu == old(settings.mtu)
      ensures !IsEmbedded(emb) ==> ok && built == old(built) && length == None
      ensures IsEmbedded(emb) ==>
                var q := emb.valueAt + 1;
                var frame := FrameOf(protocols, s, q, true, Context(EMBEDDED_MTU, noEthHeader));
                && (ok <==> frame.Some? && old(recursionDepth) + Levels(protocols, s, q, true) <= MAX_DEPTH)
                && (ok ==> length == frame && built == old(built) + Enlarged(Levels(protocols, s, q, true)))
      ensures ok ==> recursionDepth == old(recursionDepth) && currentInstruction == old(currentInstruction)
      ensures !ok ==> old(recursionDepth) <= recursionDepth
      ensures !ok ==> currentInstruction.Some? && p <= currentInstruction.value <= |s|
      decreases |s| - p, 0
    {
      hide FrameOf, Levels;
      ok, length := true, None;
      if IsEmbedded(emb) {
        var mtu := settings.mtu;
        settings.mtu := 32 * 1024;
        var n;
        ok, n := Parse(s, emb.valueAt + 1, true, noEthHeader);
        settings.mtu := mtu;
        if ok {
          length := Some(n);
        }
        ghost var levels := Levels(protocols, s, emb.valueAt + 1, true);
        assert [EMBEDDED_MTU] + Enlarged(levels - 1) == Enlarged(levels);
      }
    }
  }

  /** One level of the definitions. */
  lemma Unfold(ps: Protocols, s: Text, p: nat, ignoreTrailingGarbage: bool, c: Context)
    requires p <= |s|
    ensures FrameOf(ps, s, p, ignoreTrailingGarbage, c).Some? ==> Readable(ps, s, p, ignoreTrailingGarbage, c)
    ensures Readable(ps, s, p, ignoreTrailingGarbage, c) ==>
              var h, e := ScanHead(s, p), Embedded(ps, s, p, ignoreTrailingGarbage);
              var list := Scan(s, h.open, ignoreTrailingGarbage).parameters;
              var inner := if e.None? then None else FrameOf(ps, s, e.value, true, Inner(ps, h.keyword));
              FrameOf(ps, s, p, ignoreTrailingGarbage, c)
              == if e.Some? && inner.None? then None else ps.frame(h.keyword, list, c, inner)
    ensures var e := Embedded(ps, s, p, ignoreTrailingGarbage);
            Levels(ps, s, p, ignoreTrailingGarbage) == if e.None? then 1 else 1 + Levels(ps, s, e.value, true)
  {
    hide Embedded;
  }
}
