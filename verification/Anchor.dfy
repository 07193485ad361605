/**
 The off-host anchor line (src/anchor.rs): one printed line of space-separated
 `key=value` fields, its parser, and the comparison of two anchors.
 */
module Anchor {
  import opened Common
  import opened CharText

  datatype AnchorV1 = AnchorV1(
    chainHead: Option<string>, auditRows: int, knowledgeRoot: string, knowledgeRows: int,
    proposals: int, workflowRuns: int, dsarRequests: int, schemaVersion: Option<string>)

  const I64_MIN: int := -0x8000_0000_0000_0000
  const I64_MAX: int := 0x7FFF_FFFF_FFFF_FFFF

  // ---- integers ----

  predicate IsDigit(c: char) { '0' <= c <= '9' }

  function DigitOf(n: nat): char
    requires n < 10
  {
    '0' + n as char
  }

  function PrintNat(n: nat): (s: string)
    ensures s != [] && forall i :: 0 <= i < |s| ==> IsDigit(s[i])
  {
    if n < 10 then [DigitOf(n)] else PrintNat(n / 10) + [DigitOf(n % 10)]
  }

  function PrintInt(n: int): string { if n < 0 then "-" + PrintNat(-n) else PrintNat(n) }

  function DigitsValue(s: string): nat
    requires forall i :: 0 <= i < |s| ==> IsDigit(s[i])
  {
    assert s != [] ==> IsDigit(s[|s| - 1]);
    if s == [] then 0 else 10 * DigitsValue(s[..|s| - 1]) + (s[|s| - 1] as int - '0' as int)
  }

  /** `str::parse::<i64>`: an optional sign, at least one digit, in range. */
  function ParseI64(s: string): (r: Option<int>)
    ensures r.Some? ==> I64_MIN <= r.value <= I64_MAX
  {
    var digits := if s != [] && (s[0] == '+' || s[0] == '-') then s[1..] else s;
    if digits == [] || exists i :: 0 <= i < |digits| && !IsDigit(digits[i]) then None
    else
      var d: int := DigitsValue(digits);
      var v := if s[0] == '-' then -d else d;
      if I64_MIN <= v <= I64_MAX then Some(v) else None
  }

  lemma {:induction false} PrintNatValue(n: nat)
    ensures DigitsValue(PrintNat(n)) == n
  {
    if n < 10 {
      assert PrintNat(n)[..0] == [];
    } else {
      PrintNatValue(n / 10);
      assert PrintNat(n)[..|PrintNat(n)| - 1] == PrintNat(n / 10);
    }
  }

  lemma IntRoundTrip(n: int)
    requires I64_MIN <= n <= I64_MAX
    ensures ParseI64(PrintInt(n)) == Some(n)
  {
    hide PrintNat;
    var k: nat := if n < 0 then -n else n;
    PrintNatValue(k);
    var s := PrintInt(n);
    if n < 0 {
      assert s[1..] == PrintNat(k);
    } else {
      assert IsDigit(s[0]);
    }
  }

  /** A printed number parses back exactly when it fits 64 bits. */
  lemma IntParsesExactly(n: int)
    ensures ParseI64(PrintInt(n))
         == if -9223372036854775808 <= n <= 9223372036854775807 then Some(n) else None
  {
    hide PrintNat;
    var k: nat := if n < 0 then -n else n;
    PrintNatValue(k);
    var s := PrintInt(n);
    if n < 0 {
      assert s[1..] == PrintNat(k);
    } else {
      assert IsDigit(s[0]);
    }
  }

  // ---- words ----

  ghost predicate Solid(w: string) { forall i :: 0 <= i < |w| ==> !IsWhitespace(w[i]) }

  /** The length of the leading run of non-white-space. */
  function WordLen(s: string): (n: nat)
    ensures n <= |s| && (forall i :: 0 <= i < n ==> !IsWhitespace(s[i])) && (n < |s| ==> IsWhitespace(s[n]))
  {
    if s == [] || IsWhitespace(s[0]) then 0
    else
      var n := WordLen(s[1..]);
      assert forall i :: 1 <= i < |s| ==> s[i] == s[1..][i - 1];
      n + 1
  }

  /** `split_whitespace`. */
  function Words(s: string): (ws: seq<string>)
    ensures forall i :: 0 <= i < |ws| ==> ws[i] != [] && Solid(ws[i])
    decreases |s|
  {
    if s == [] then []
    else if IsWhitespace(s[0]) then Words(s[1..])
    else [s[..WordLen(s)]] + Words(s[WordLen(s)..])
  }

  function JoinSpace(ws: seq<string>): string {
    if ws == [] then [] else if |ws| == 1 then ws[0] else ws[0] + " " + JoinSpace(ws[1..])
  }

  lemma WordLenExact(w: string, rest: string)
    requires Solid(w) && (rest == [] || IsWhitespace(rest[0]))
    ensures WordLen(w + rest) == |w|
  {
    var s := w + rest;
    var n := WordLen(s);
    assert forall i :: 0 <= i < |w| ==> s[i] == w[i];
    assert rest != [] ==> s[|w|] == rest[0];
  }

  lemma {:induction false} WordsOfJoin(ws: seq<string>)
    requires forall i :: 0 <= i < |ws| ==> ws[i] != [] && Solid(ws[i])
    ensures Words(JoinSpace(ws)) == ws
  {
    hide WordLen, IsWhitespace;
    if ws != [] {
      var w, tail := ws[0], ws[1..];
      assert !IsWhitespace(w[0]);
      SpaceIsWhitespace();
      if tail == [] {
        WordLenExact(w, []);
        assert w + [] == w && w[..|w|] == w && w[|w|..] == [];
        assert ws == [w];
      } else {
        var rest := " " + JoinSpace(tail);
        WordsOfJoin(tail);
        WordLenExact(w, rest);
        assert JoinSpace(ws) == w + rest;
        assert (w + rest)[..|w|] == w && (w + rest)[|w|..] == rest && rest[1..] == JoinSpace(tail);
        assert ws == [w] + tail;
      }
    }
  }

  lemma SpaceIsWhitespace()
    ensures IsWhitespace(' ')
  {
  }

  function TrimStart(s: string): string
  {
    if s != [] && IsWhitespace(s[0]) then TrimStart(s[1..]) else s
  }

  function TrimEnd(s: string): string
  {
    if s != [] && IsWhitespace(s[|s| - 1]) then TrimEnd(s[..|s| - 1]) else s
  }

  /** `split_once('=')`. */
  function SplitOnce(field: string): Option<(string, string)> {
    match FindChar(field, '=')
    case None => None
    case Some(i) => Some((field[..i], field[i + 1..]))
  }

  lemma SplitOnceField(key: string, value: string)
    requires '=' !in key
    ensures SplitOnce(key + "=" + value) == Some((key, value))
  {
    hide FindChar;
    var field := key + "=" + value;
    assert forall i :: 0 <= i < |key| ==> field[i] == key[i];
    assert field[|key|] == '=';
    assert field[..|key|] == key && field[|key| + 1..] == value;
  }

  // ---- printing ----

  function Fields(a: AnchorV1): seq<string> {
    [ "chain" + "=" + (if a.chainHead.Some? then a.chainHead.value else "none"),
      "audit_rows" + "=" + PrintInt(a.auditRows),
      "knowledge" + "=" + a.knowledgeRoot,
      "knowledge_rows" + "=" + PrintInt(a.knowledgeRows),
      "proposals" + "=" + PrintInt(a.proposals),
      "workflow_runs" + "=" + PrintInt(a.workflowRuns),
      "dsar_requests" + "=" + PrintInt(a.dsarRequests),
      "schema" + "=" + (if a.schemaVersion.Some? then a.schemaVersion.value else "?") ]
  }

  function Render(a: AnchorV1): string { JoinSpace(["brain-anchor", "v1"] + Fields(a)) }

  // ---- parsing ----

  const BLANK := AnchorV1(None, 0, "", 0, 0, 0, 0, None)

  /** One field overwrites its part of the anchor; an unknown key or a bad number refuses. */
  function ParseKey(a: AnchorV1, key: string, value: string): Option<AnchorV1> {
    if key == "chain" then Some(a.(chainHead := if value == "none" then None else Some(value)))
    else if key == "knowledge" then Some(a.(knowledgeRoot := value))
    else if key == "schema" then Some(a.(schemaVersion := if value == "?" then None else Some(value)))
    else match ParseI64(value)
      case None => None
      case Some(n) =>
        if key == "audit_rows" then Some(a.(auditRows := n))
        else if key == "knowledge_rows" then Some(a.(knowledgeRows := n))
        else if key == "proposals" then Some(a.(proposals := n))
        else if key == "workflow_runs" then Some(a.(workflowRuns := n))
        else if key == "dsar_requests" then Some(a.(dsarRequests := n))
        else None
  }

  function ParseField(a: AnchorV1, field: string): Option<AnchorV1> {
    match SplitOnce(field)
    case None => None
    case Some((key, value)) => ParseKey(a, key, value)
  }

  function ParseFields(fields: seq<string>): Option<AnchorV1> {
    if fields == [] then Some(BLANK)
    else match ParseFields(fields[..|fields| - 1])
      case None => None
      case Some(a) => ParseField(a, fields[|fields| - 1])
  }

  const PREFIX: string := "brain-anchor v1 "

  function Parse(line: string): Option<AnchorV1> {
    var trimmed := TrimEnd(TrimStart(line));
    if !(PREFIX <= trimmed) then None
    else
      var ws := Words(trimmed);
      match ParseFields(if |ws| >= 2 then ws[2..] else [])
      case None => None
      case Some(a) => if a.knowledgeRoot == "" then None else Some(a)
  }

  /** The parsing loop. */
  method ParseLine(line: string) returns (out: Option<AnchorV1>)
    ensures out == Parse(line)
  {
    hide TrimStart, TrimEnd, Words, ParseField;
    var trimmed := TrimEnd(TrimStart(line));
    if !(PREFIX <= trimmed) {
      return None;
    }
    var ws := Words(trimmed);
    var fields := if |ws| >= 2 then ws[2..] else [];
    var a := BLANK;
    for i := 0 to |fields|
      invariant ParseFields(fields[..i]) == Some(a)
    {
      assert fields[..i + 1][..i] == fields[..i];
      var next := ParseField(a, fields[i]);
      if next.None? {
        ParseFieldsStop(fields, i + 1);
        return None;
      }
      a := next.value;
    }
    assert fields[..|fields|] == fields;
    if a.knowledgeRoot == "" {
      return None;
    }
    return Some(a);
  }

  lemma {:induction false} ParseFieldsStop(fields: seq<string>, i: nat)
    requires i <= |fields| && ParseFields(fields[..i]).None?
    ensures ParseFields(fields).None?
    decreases |fields| - i
  {
    if i == |fields| {
      assert fields[..i] == fields;
    } else {
      assert fields[..i + 1][..i] == fields[..i];
      ParseFieldsStop(fields, i + 1);
    }
  }

  // ---- round trip ----

  ghost predicate SolidOption(o: Option<string>, marker: string) {
    o.Some? ==> Solid(o.value) && o.value != marker
  }

  /** The anchors that survive printing. */
  ghost predicate Printable(a: AnchorV1) {
    && SolidOption(a.chainHead, "none") && SolidOption(a.schemaVersion, "?")
    && Solid(a.knowledgeRoot) && a.knowledgeRoot != ""
    && I64_MIN <= a.auditRows <= I64_MAX && I64_MIN <= a.knowledgeRows <= I64_MAX
    && I64_MIN <= a.proposals <= I64_MAX && I64_MIN <= a.workflowRuns <= I64_MAX
    && I64_MIN <= a.dsarRequests <= I64_MAX
  }

  lemma SolidInt(n: int)
    ensures Solid(PrintInt(n))
  {
    hide PrintNat;
    var k: nat := if n < 0 then -n else n;
    assert forall i :: 0 <= i < |PrintNat(k)| ==> IsDigit(PrintNat(k)[i]);
  }

  lemma SolidField(key: string, value: string)
    requires Solid(key) && Solid(value)
    ensures Solid(key + "=" + value)
  {
    hide IsWhitespace;
    var field := key + "=" + value;
    assert !IsWhitespace('=') by { EqualsIsSolid(); }
    forall i | 0 <= i < |field| ensures !IsWhitespace(field[i]) {
      assert field[i] == if i < |key| then key[i] else if i == |key| then '=' else value[i - |key| - 1];
    }
  }

  lemma EqualsIsSolid()
    ensures !IsWhitespace('=')
  {
  }

  lemma SolidKeys()
    ensures Solid("brain-anchor") && Solid("v1") && Solid("chain") && Solid("audit_rows") && Solid("knowledge")
    ensures Solid("knowledge_rows") && Solid("proposals") && Solid("workflow_runs") && Solid("dsar_requests")
    ensures Solid("schema") && Solid("none") && Solid("?")
  {
  }

  lemma SolidFields(a: AnchorV1)
    requires Printable(a)
    ensures forall i :: 0 <= i < 8 ==> Fields(a)[i] != [] && Solid(Fields(a)[i])
  {
    hide Solid, PrintInt;
    SolidKeys();
    SolidInt(a.auditRows);
    SolidInt(a.knowledgeRows);
    SolidInt(a.proposals);
    SolidInt(a.workflowRuns);
    SolidInt(a.dsarRequests);
    SolidField("chain", if a.chainHead.Some? then a.chainHead.value else "none");
    SolidField("audit_rows", PrintInt(a.auditRows));
    SolidField("knowledge", a.knowledgeRoot);
    SolidField("knowledge_rows", PrintInt(a.knowledgeRows));
    SolidField("proposals", PrintInt(a.proposals));
    SolidField("workflow_runs", PrintInt(a.workflowRuns));
    SolidField("dsar_requests", PrintInt(a.dsarRequests));
    SolidField("schema", if a.schemaVersion.Some? then a.schemaVersion.value else "?");
  }

  lemma ParseFieldsPush(fields: seq<string>, a: AnchorV1, key: string, value: string)
    requires ParseFields(fields) == Some(a) && '=' !in key
    ensures ParseFields(fields + [key + "=" + value]) == ParseKey(a, key, value)
  {
    hide SplitOnce;
    var f := key + "=" + value;
    assert (fields + [f])[..|fields|] == fields;
    SplitOnceField(key, value);
  }

  ghost predicate ParsedTo(fields: seq<string>, a: AnchorV1) { ParseFields(fields) == Some(a) }

  lemma PushText(fields: seq<string>, a: AnchorV1, key: string, value: string, a': AnchorV1)
    requires ParsedTo(fields, a) && '=' !in key && ParseKey(a, key, value) == Some(a')
    ensures ParsedTo(fields + [key + "=" + value], a')
  {
    hide ParseKey;
    ParseFieldsPush(fields, a, key, value);
  }

  lemma PushInt(fields: seq<string>, a: AnchorV1, key: string, n: int, a': AnchorV1)
    requires ParsedTo(fields, a) && '=' !in key && I64_MIN <= n <= I64_MAX
    requires key != "chain" && key != "knowledge" && key != "schema"
    requires a' == (if key == "audit_rows" then a.(auditRows := n)
                    else if key == "knowledge_rows" then a.(knowledgeRows := n)
                    else if key == "proposals" then a.(proposals := n)
                    else if key == "workflow_runs" then a.(workflowRuns := n)
                    else a.(dsarRequests := n))
    requires key in ["audit_rows", "knowledge_rows", "proposals", "workflow_runs", "dsar_requests"]
    ensures ParsedTo(fields + [key + "=" + PrintInt(n)], a')
  {
    hide ParseI64, PrintInt;
    IntRoundTrip(n);
    PushText(fields, a, key, PrintInt(n), a');
  }

  /** The printed fields parse back, one by one. */
  lemma FieldsParse(a: AnchorV1)
    requires Printable(a)
    ensures ParsedTo(Fields(a), a)
  {
    hide PrintInt, ParsedTo, Solid;
    ParsedNothing();
    var c := if a.chainHead.Some? then a.chainHead.value else "none";
    var s := if a.schemaVersion.Some? then a.schemaVersion.value else "?";
    var a1 := BLANK.(chainHead := a.chainHead);
    PushText([], BLANK, "chain", c, a1);
    var a2 := a1.(auditRows := a.auditRows);
    var f1 := [] + ["chain" + "=" + c];
    PushInt(f1, a1, "audit_rows", a.auditRows, a2);
    var a3 := a2.(knowledgeRoot := a.knowledgeRoot);
    var f2 := f1 + ["audit_rows" + "=" + PrintInt(a.auditRows)];
    PushText(f2, a2, "knowledge", a.knowledgeRoot, a3);
    var a4 := a3.(knowledgeRows := a.knowledgeRows);
    var f3 := f2 + ["knowledge" + "=" + a.knowledgeRoot];
    PushInt(f3, a3, "knowledge_rows", a.knowledgeRows, a4);
    var f4 := f3 + ["knowledge_rows" + "=" + PrintInt(a.knowledgeRows)];
    FieldsParseRest(a, f4, a4, s);
    assert Fields(a) == f4 + ["proposals" + "=" + PrintInt(a.proposals), "workflow_runs" + "=" + PrintInt(a.workflowRuns),
                              "dsar_requests" + "=" + PrintInt(a.dsarRequests), "schema" + "=" + s];
  }

  lemma FieldsParseRest(a: AnchorV1, f4: seq<string>, a4: AnchorV1, s: string)
    requires Printable(a) && ParsedTo(f4, a4) && s == (if a.schemaVersion.Some? then a.schemaVersion.value else "?")
    requires a4 == a.(proposals := 0, workflowRuns := 0, dsarRequests := 0, schemaVersion := None)
    ensures ParsedTo(f4 + ["proposals" + "=" + PrintInt(a.proposals), "workflow_runs" + "=" + PrintInt(a.workflowRuns),
                           "dsar_requests" + "=" + PrintInt(a.dsarRequests), "schema" + "=" + s], a)
  {
    hide PrintInt, ParsedTo, Solid;
    var a5 := a4.(proposals := a.proposals);
    PushInt(f4, a4, "proposals", a.proposals, a5);
    var f5 := f4 + ["proposals" + "=" + PrintInt(a.proposals)];
    var a6 := a5.(workflowRuns := a.workflowRuns);
    PushInt(f5, a5, "workflow_runs", a.workflowRuns, a6);
    var f6 := f5 + ["workflow_runs" + "=" + PrintInt(a.workflowRuns)];
    var a7 := a6.(dsarRequests := a.dsarRequests);
    PushInt(f6, a6, "dsar_requests", a.dsarRequests, a7);
    var f7 := f6 + ["dsar_requests" + "=" + PrintInt(a.dsarRequests)];
    PushText(f7, a7, "schema", s, a);
    assert f7 + ["schema" + "=" + s]
        == f4 + ["proposals" + "=" + PrintInt(a.proposals), "workflow_runs" + "=" + PrintInt(a.workflowRuns),
                 "dsar_requests" + "=" + PrintInt(a.dsarRequests), "schema" + "=" + s];
  }

  lemma ParsedNothing()
    ensures ParsedTo([], BLANK)
  {
  }

  lemma {:induction false} JoinEnds(ws: seq<string>)
    requires ws != [] && forall i :: 0 <= i < |ws| ==> ws[i] != [] && Solid(ws[i])
    ensures JoinSpace(ws) != [] && !IsWhitespace(JoinSpace(ws)[0])
    ensures !IsWhitespace(JoinSpace(ws)[|JoinSpace(ws)| - 1])
  {
    hide IsWhitespace;
    assert !IsWhitespace(ws[0][0]) && !IsWhitespace(ws[0][|ws[0]| - 1]);
    if |ws| > 1 {
      JoinEnds(ws[1..]);
    }
  }

  /** A printable anchor parses back from its printed line. */
  lemma PrintedParses(a: AnchorV1)
    requires Printable(a)
    ensures Parse(Render(a)) == Some(a)
  {
    hide Solid, Fields, IsWhitespace, Words;
    var ws := ["brain-anchor", "v1"] + Fields(a);
    SolidKeys();
    SolidFields(a);
    assert |Fields(a)| == 8 by { FieldCount(a); }
    assert forall i :: 0 <= i < |ws| ==> ws[i] != [] && Solid(ws[i]);
    var line := Render(a);
    JoinEnds(ws);
    assert TrimEnd(TrimStart(line)) == line;
    WordsOfJoin(ws);
    assert ws[2..] == Fields(a);
    FieldsParse(a);
    JoinPrefix(ws);
  }

  /** The words of a printed line, in the order of the format. */
  lemma RenderWords(a: AnchorV1)
    requires Printable(a)
    ensures Words(Render(a))
         == [ "brain-anchor", "v1", "chain=" + (if a.chainHead.Some? then a.chainHead.value else "none"),
              "audit_rows=" + PrintInt(a.auditRows), "knowledge=" + a.knowledgeRoot,
              "knowledge_rows=" + PrintInt(a.knowledgeRows), "proposals=" + PrintInt(a.proposals),
              "workflow_runs=" + PrintInt(a.workflowRuns), "dsar_requests=" + PrintInt(a.dsarRequests),
              "schema=" + (if a.schemaVersion.Some? then a.schemaVersion.value else "?") ]
  {
    hide Solid, IsWhitespace, Words, PrintInt, JoinSpace;
    var ws := ["brain-anchor", "v1"] + Fields(a);
    SolidKeys();
    SolidFields(a);
    assert |Fields(a)| == 8 by { FieldCount(a); }
    assert forall i :: 0 <= i < |ws| ==> ws[i] != [] && Solid(ws[i]);
    WordsOfJoin(ws);
    KeyTexts();
  }

  lemma KeyTexts()
    ensures "chain" + "=" == "chain=" && "audit_rows" + "=" == "audit_rows=" && "knowledge" + "=" == "knowledge="
    ensures "knowledge_rows" + "=" == "knowledge_rows=" && "proposals" + "=" == "proposals="
    ensures "workflow_runs" + "=" == "workflow_runs=" && "dsar_requests" + "=" == "dsar_requests="
    ensures "schema" + "=" == "schema="
  {
  }

  lemma FieldCount(a: AnchorV1)
    ensures |Fields(a)| == 8
  {
  }

  lemma JoinPrefix(ws: seq<string>)
    requires |ws| > 2 && ws[0] == "brain-anchor" && ws[1] == "v1"
    ensures PREFIX <= JoinSpace(ws)
  {
    var rest := ws[1..];
    assert JoinSpace(ws) == ws[0] + " " + (rest[0] + " " + JoinSpace(rest[1..]));
    assert JoinSpace(ws) == PREFIX + JoinSpace(rest[1..]);
  }

  /** What any parsed field leaves is free of white space and in range. */
  ghost predicate Clean(a: AnchorV1) {
    && SolidOption(a.chainHead, "none") && SolidOption(a.schemaVersion, "?") && Solid(a.knowledgeRoot)
    && I64_MIN <= a.auditRows <= I64_MAX && I64_MIN <= a.knowledgeRows <= I64_MAX
    && I64_MIN <= a.proposals <= I64_MAX && I64_MIN <= a.workflowRuns <= I64_MAX
    && I64_MIN <= a.dsarRequests <= I64_MAX
  }

  lemma FieldClean(a: AnchorV1, field: string)
    requires Clean(a) && Solid(field) && ParseField(a, field).Some?
    ensures Clean(ParseField(a, field).value)
  {
    hide ParseI64, IsWhitespace;
    var value := SplitOnce(field).value.1;
    assert forall i :: 0 <= i < |value| ==> value[i] == field[|field| - |value| + i];
    assert Solid(value);
  }

  lemma {:induction false} FieldsClean(fields: seq<string>)
    requires forall i :: 0 <= i < |fields| ==> Solid(fields[i])
    ensures ParseFields(fields).Some? ==> Clean(ParseFields(fields).value)
  {
    hide Solid, ParseField, Clean;
    if fields == [] {
      BlankClean();
    } else {
      FieldsClean(fields[..|fields| - 1]);
      var front := ParseFields(fields[..|fields| - 1]);
      if front.Some? && ParseField(front.value, fields[|fields| - 1]).Some? {
        FieldClean(front.value, fields[|fields| - 1]);
      }
    }
  }

  lemma BlankClean()
    ensures Clean(BLANK)
  {
  }

  /** Whatever parses is printable, so printing it again gives a line with the same meaning. */
  lemma ParsedIsPrintable(line: string)
    ensures Parse(line).Some? ==> Printable(Parse(line).value) && Parse(Render(Parse(line).value)) == Parse(line)
  {
    hide Render, Solid;
    var ws := Words(TrimEnd(TrimStart(line)));
    FieldsClean(if |ws| >= 2 then ws[2..] else []);
    if Parse(line).Some? {
      PrintedParses(Parse(line).value);
    }
  }

  /** An anchor survives printing and parsing if and only if its fields are free of white
      space, its root is not empty, its chain is not the word "none", its schema is not "?"
      and its counts fit 64 bits. */
  lemma RoundTrip(a: AnchorV1)
    ensures Parse(Render(a)) == Some(a) <==> Printable(a)
  {
    hide Render, Parse, Printable;
    if Printable(a) {
      PrintedParses(a);
    }
    ParsedIsPrintable(Render(a));
  }

  // ---- which lines parse ----

  predicate IsTextKey(key: string) { key == "chain" || key == "knowledge" || key == "schema" }

  predicate IsCountKey(key: string) {
    key == "audit_rows" || key == "knowledge_rows" || key == "proposals" || key == "workflow_runs" || key == "dsar_requests"
  }

  /** A known key, an equals sign and, for a count, a 64-bit number. */
  predicate GoodField(field: string) {
    var kv := SplitOnce(field);
    kv.Some? && (IsTextKey(kv.value.0) || (IsCountKey(kv.value.0) && ParseI64(kv.value.1).Some?))
  }

  predicate IsRoot(field: string) { SplitOnce(field).Some? && SplitOnce(field).value.0 == "knowledge" }

  /** The last root given is not empty. */
  ghost predicate GivesRoot(fields: seq<string>) {
    exists i :: 0 <= i < |fields| && IsRoot(fields[i]) && SplitOnce(fields[i]).value.1 != ""
                && forall j :: i < j < |fields| ==> !IsRoot(fields[j])
  }

  lemma FieldParsesExactly(a: AnchorV1, field: string)
    ensures ParseField(a, field).Some? <==> GoodField(field)
    ensures GoodField(field) ==>
              ParseField(a, field).value.knowledgeRoot
              == if IsRoot(field) then SplitOnce(field).value.1 else a.knowledgeRoot
  {
    hide SplitOnce, ParseI64;
  }

  lemma GivesRootPush(fields: seq<string>, field: string)
    ensures GivesRoot(fields + [field])
        <==> if IsRoot(field) then SplitOnce(field).value.1 != "" else GivesRoot(fields)
  {
    hide SplitOnce;
    var all := fields + [field];
    assert all[|fields|] == field;
    assert forall i :: 0 <= i < |fields| ==> all[i] == fields[i];
    if !IsRoot(field) && GivesRoot(fields) {
      var i :| 0 <= i < |fields| && IsRoot(fields[i]) && SplitOnce(fields[i]).value.1 != ""
               && forall j :: i < j < |fields| ==> !IsRoot(fields[j]);
      assert IsRoot(all[i]) && forall j :: i < j < |all| ==> !IsRoot(all[j]);
    }
  }

  lemma {:induction false} FieldsParseExactly(fields: seq<string>)
    ensures ParseFields(fields).Some? <==> forall i :: 0 <= i < |fields| ==> GoodField(fields[i])
    ensures ParseFields(fields).Some? ==> (ParseFields(fields).value.knowledgeRoot != "" <==> GivesRoot(fields))
  {
    hide GoodField, ParseField, IsRoot, SplitOnce;
    if fields != [] {
      var front, field := fields[..|fields| - 1], fields[|fields| - 1];
      FieldsParseExactly(front);
      assert fields == front + [field];
      GivesRootPush(front, field);
      if ParseFields(front).Some? {
        FieldParsesExactly(ParseFields(front).value, field);
      }
    }
  }

  /** A line parses if and only if, trimmed, it starts with the v1 prefix, every later word
      has a known key and, for a count, a 64-bit number, and the last root given is not
      empty. Nothing else is asked for. */
  lemma ParsesExactly(line: string)
    ensures var trimmed := TrimEnd(TrimStart(line));
            var fields := if |Words(trimmed)| >= 2 then Words(trimmed)[2..] else [];
            Parse(line).Some?
            <==> PREFIX <= trimmed && GivesRoot(fields) && forall i :: 0 <= i < |fields| ==> GoodField(fields[i])
  {
    hide TrimStart, TrimEnd, Words, GoodField, GivesRoot, ParseFields;
    var ws := Words(TrimEnd(TrimStart(line)));
    FieldsParseExactly(if |ws| >= 2 then ws[2..] else []);
  }

  /** So a line without its counts and chain is not refused: they read as zero and none. */
  lemma PartialLineParses()
    ensures Parse("brain-anchor v1 knowledge=x") == Some(AnchorV1(None, 0, "x", 0, 0, 0, 0, None))
  {
    hide Words, Solid, IsWhitespace, ParseFields;
    var field := "knowledge" + "=" + "x";
    var ws := ["brain-anchor", "v1", field];
    SolidKeys();
    assert Solid("x") by { SolidX(); }
    SolidField("knowledge", "x");
    JoinEnds(ws);
    WordsOfJoin(ws);
    JoinThree(ws);
    assert JoinSpace(ws) == "brain-anchor v1 knowledge=x";
    JoinPrefix(ws);
    assert ws[2..] == [] + [field];
    ParsedNothing();
    ParseFieldsPush([], BLANK, "knowledge", "x");
  }

  lemma SolidX()
    ensures Solid("x")
  {
  }

  lemma JoinThree(ws: seq<string>)
    requires |ws| == 3
    ensures JoinSpace(ws) == ws[0] + " " + (ws[1] + " " + ws[2])
  {
    assert JoinSpace(ws[1..]) == ws[1] + " " + JoinSpace(ws[1..][1..]);
  }

  // ---- comparison ----

  datatype Component = ChainHead | AuditRows | KnowledgeCensus | KnowledgeRows | Proposals | WorkflowRuns | DsarRequests

  /** The component has the same value in both anchors. */
  predicate Same(c: Component, x: AnchorV1, y: AnchorV1) {
    match c
    case ChainHead => x.chainHead == y.chainHead
    case AuditRows => x.auditRows == y.auditRows
    case KnowledgeCensus => x.knowledgeRoot == y.knowledgeRoot
    case KnowledgeRows => x.knowledgeRows == y.knowledgeRows
    case Proposals => x.proposals == y.proposals
    case WorkflowRuns => x.workflowRuns == y.workflowRuns
    case DsarRequests => x.dsarRequests == y.dsarRequests
  }

  /** The components that moved, in report order; the schema version is context, not state. */
  method Compare(recorded: AnchorV1, current: AnchorV1) returns (out: seq<Component>)
    ensures forall c :: c in out <==> !Same(c, recorded, current)
    ensures out == [] <==> recorded.(schemaVersion := None) == current.(schemaVersion := None)
  {
    out := [];
    if recorded.chainHead != current.chainHead { out := out + [ChainHead]; }
    if recorded.auditRows != current.auditRows { out := out + [AuditRows]; }
    if recorded.knowledgeRoot != current.knowledgeRoot { out := out + [KnowledgeCensus]; }
    if recorded.knowledgeRows != current.knowledgeRows { out := out + [KnowledgeRows]; }
    if recorded.proposals != current.proposals { out := out + [Proposals]; }
    if recorded.workflowRuns != current.workflowRuns { out := out + [WorkflowRuns]; }
    if recorded.dsarRequests != current.dsarRequests { out := out + [DsarRequests]; }
  }
}
