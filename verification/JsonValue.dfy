/** JSON values and their text, as lib/cJSON.c prints them, with or without formatting. */
module JsonValue {
  import opened Arith
  import opened Bytes
  import opened JsonNumber
  import opened JsonString

  datatype Json =
    | Null
    | Bool(b: bool)
    | Num(value: real)
    | Str(s: Data)
    | Arr(elems: seq<Json>)
    | Obj(members: seq<Member>)

  datatype Member = Member(key: Data, value: Json)

  /** Numbers take no more than fifteen digits, and no string or name holds a zero byte. */
  predicate Printable(v: Json)
  {
    match v
    case Num(n) => Short(n)
    case Str(s) => 0 !in s
    case Arr(es) => forall i :: 0 <= i < |es| ==> Printable(es[i])
    case Obj(ms) => forall i :: 0 <= i < |ms| ==> 0 !in ms[i].key && Printable(ms[i].value)
    case _ => true
  }

  /** How many arrays and objects are nested in one another. */
  function Depth(v: Json): nat
  {
    match v
    case Arr(es) => 1 + DepthElems(es)
    case Obj(ms) => 1 + DepthMembers(ms)
    case _ => 0
  }

  function DepthElems(es: seq<Json>): nat
  {
    if es == [] then 0 else Max(Depth(es[0]), DepthElems(es[1..]))
  }

  function DepthMembers(ms: seq<Member>): nat
  {
    if ms == [] then 0 else Max(Depth(ms[0].value), DepthMembers(ms[1..]))
  }

  const NULL_TEXT: Data := [110, 117, 108, 108]
  const TRUE_TEXT: Data := [116, 114, 117, 101]
  const FALSE_TEXT: Data := [102, 97, 108, 115, 101]
  const LBRACKET: Byte := 91
  const RBRACKET: Byte := 93
  const LBRACE: Byte := 123
  const RBRACE: Byte := 125
  const COMMA: Byte := 44
  const COLON: Byte := 58
  const SPACE: Byte := 32
  const TAB: Byte := 9
  const NEWLINE: Byte := 10

  function Tabs(n: nat): (t: Data)
    ensures |t| == n && forall i :: 0 <= i < n ==> t[i] == TAB
  {
    seq(n, _ => TAB)
  }

  function If(format: bool, d: Data): Data { if format then d else [] }

  /** The text of a value that stands `depth` levels deep. */
  function Text(v: Json, format: bool, depth: nat): Data
    decreases v, 0
  {
    match v
    case Null => NULL_TEXT
    case Bool(b) => if b then TRUE_TEXT else FALSE_TEXT
    case Num(n) => NumberText(n)
    case Str(s) => Quoted(s)
    case Arr(es) => [LBRACKET] + (ElemsText(es, format, depth + 1) + [RBRACKET])
    case Obj(ms) =>
      [LBRACE] + (If(format, [NEWLINE]) + (MembersText(ms, format, depth + 1) + (If(format, Tabs(depth)) + [RBRACE])))
  }

  function ElemsText(es: seq<Json>, format: bool, depth: nat): Data
    decreases es, 1
  {
    if es == [] then []
    else if |es| == 1 then Text(es[0], format, depth)
    else Text(es[0], format, depth) + ([COMMA] + (If(format, [SPACE]) + ElemsText(es[1..], format, depth)))
  }

  function MembersText(ms: seq<Member>, format: bool, depth: nat): Data
    decreases ms, 1
  {
    if ms == [] then []
    else
      MemberText(ms[0], format, depth)
      + (If(|ms| > 1, [COMMA]) + (If(format, [NEWLINE]) + MembersText(ms[1..], format, depth)))
  }

  function MemberText(m: Member, format: bool, depth: nat): Data
    decreases m, 0
  {
    If(format, Tabs(depth)) + (Quoted(m.key) + ([COLON] + (If(format, [TAB]) + Text(m.value, format, depth))))
  }

  lemma ElemsNone(format: bool, depth: nat)
    ensures ElemsText([], format, depth) == []
  {
  }

  lemma MembersNone(format: bool, depth: nat)
    ensures MembersText([], format, depth) == []
  {
  }

  // ---- no text holds a zero byte ----

  predicate NoZero(t: Data) { forall i :: 0 <= i < |t| ==> t[i] != 0 }

  lemma NoZeroAppend(a: Data, b: Data)
    requires NoZero(a) && NoZero(b)
    ensures NoZero(a + b)
  {
  }

  lemma {:induction false} EscapeNoZero(s: Data)
    ensures NoZero(EscapeAll(s))
  {
    if s != [] {
      EscapeNoZero(s[1..]);
    }
  }

  lemma {:induction false} TextNoZero(v: Json, format: bool, depth: nat)
    ensures NoZero(Text(v, format, depth))
    decreases v, 0
  {
    match v
    case Str(s) => EscapeNoZero(s);
    case Arr(es) => ElemsNoZero(es, format, depth + 1);
    case Obj(ms) =>
      MembersNoZero(ms, format, depth + 1);
      BracesNoZero(format, MembersText(ms, format, depth + 1), depth);
    case _ =>
  }

  lemma BracesNoZero(format: bool, text: Data, depth: nat)
    requires NoZero(text)
    ensures NoZero([LBRACE] + (If(format, [NEWLINE]) + (text + (If(format, Tabs(depth)) + [RBRACE]))))
  {
    var tabs, newline := If(format, Tabs(depth)), If(format, [NEWLINE]);
    NoZeroAppend(tabs, [RBRACE]);
    NoZeroAppend(text, tabs + [RBRACE]);
    NoZeroAppend(newline, text + (tabs + [RBRACE]));
  }

  lemma {:induction false} ElemsNoZero(es: seq<Json>, format: bool, depth: nat)
    ensures NoZero(ElemsText(es, format, depth))
    decreases es, 1
  {
    hide Text;
    if es != [] {
      TextNoZero(es[0], format, depth);
      ElemsNoZero(es[1..], format, depth);
    }
  }

  lemma {:induction false} MembersNoZero(ms: seq<Member>, format: bool, depth: nat)
    ensures NoZero(MembersText(ms, format, depth))
    decreases ms, 1
  {
    hide MemberText;
    if ms != [] {
      MemberNoZero(ms[0], format, depth);
      MembersNoZero(ms[1..], format, depth);
    }
  }

  lemma {:induction false} MemberNoZero(m: Member, format: bool, depth: nat)
    ensures NoZero(MemberText(m, format, depth))
    decreases m, 0
  {
    hide Text, EscapeAll;
    EscapeNoZero(m.key);
    TextNoZero(m.value, format, depth);
  }
}
