/** The printer of lib/cJSON.c: a buffer that grows, or may not, and exactly when a value fits it. */
module JsonPrinter {
  import opened Bytes
  import opened JsonNumber
  import opened JsonString
  import opened JsonValue

  /** A round of the loop over elements takes one element, and the separator, from what is still to be written. */
  lemma ElemsStep(written: Data, es: seq<Json>, i: nat, format: bool, depth: nat)
    requires i < |es|
    ensures var text, separator := Text(es[i], format, depth), [COMMA] + If(format, [SPACE]);
      && |text| <= |ElemsText(es[i..], format, depth)|
      && (i + 1 < |es| ==> |text + separator| < |ElemsText(es[i..], format, depth)|)
      && written + ElemsText(es[i..], format, depth)
         == (if i + 1 < |es| then written + text + separator else written + text)
            + ElemsText(es[i + 1..], format, depth)
  {
    hide Text;
    var rest := ElemsText(es[i + 1..], format, depth);
    assert es[i..][1..] == es[i + 1..];
    if i + 1 < |es| {
      ElemsNotEmpty(es[i + 1..], format, depth);
      Regroup(written, Text(es[i], format, depth), [COMMA], If(format, [SPACE]), rest);
    } else {
      assert rest == [];
      assert (written + Text(es[i], format, depth)) + [] == written + Text(es[i], format, depth);
    }
  }

  lemma Regroup(a: Data, b: Data, c: Data, d: Data, e: Data)
    ensures a + (b + (c + (d + e))) == a + b + (c + d) + e
  {
  }

  lemma ElemsNotEmpty(es: seq<Json>, format: bool, depth: nat)
    requires es != []
    ensures ElemsText(es, format, depth) != []
  {
    hide Text;
    TextNotEmpty(es[0], format, depth);
  }

  lemma ArrayText(before: Data, es: seq<Json>, format: bool, depth: nat)
    ensures before + [LBRACKET] + ElemsText(es, format, depth + 1) + [RBRACKET] == before + Text(Arr(es), format, depth)
    ensures |Text(Arr(es), format, depth)| == 2 + |ElemsText(es, format, depth + 1)|
    ensures es == [] ==> ElemsText(es, format, depth + 1) == []
  {
    hide ElemsText;
    if es == [] {
      ElemsNone(format, depth + 1);
    }
    RegroupArray(before, [LBRACKET], ElemsText(es, format, depth + 1), [RBRACKET]);
  }

  lemma RegroupArray(a: Data, b: Data, c: Data, d: Data)
    ensures a + b + c + d == a + (b + (c + d))
  {
  }

  lemma MembersStep(written: Data, ms: seq<Member>, i: nat, format: bool, depth: nat)
    requires i < |ms|
    ensures var text, separator := MemberText(ms[i], format, depth), If(i + 1 < |ms|, [COMMA]) + If(format, [NEWLINE]);
      && |text + separator| <= |MembersText(ms[i..], format, depth)|
      && written + MembersText(ms[i..], format, depth)
         == written + text + separator + MembersText(ms[i + 1..], format, depth)
  {
    hide MemberText;
    assert ms[i..][1..] == ms[i + 1..];
    Regroup(written, MemberText(ms[i], format, depth), If(i + 1 < |ms|, [COMMA]), If(format, [NEWLINE]),
            MembersText(ms[i + 1..], format, depth));
  }

  lemma ObjectPieces(before: Data, ms: seq<Member>, format: bool, depth: nat)
    ensures var newline, tabs := If(format, [NEWLINE]), If(format, Tabs(depth));
      && before + ([LBRACE] + newline) + MembersText(ms, format, depth + 1) + (tabs + [RBRACE])
         == before + Text(Obj(ms), format, depth)
      && |Text(Obj(ms), format, depth)| == 2 + |newline| + |tabs| + |MembersText(ms, format, depth + 1)|
      && (if format then |newline| == 1 && |tabs| == depth else |newline| == |tabs| == 0)
    ensures ms == [] ==> MembersText(ms, format, depth + 1) == []
  {
    hide MembersText;
    if ms == [] {
      MembersNone(format, depth + 1);
    }
    RegroupObject(before, [LBRACE], If(format, [NEWLINE]), MembersText(ms, format, depth + 1),
                  If(format, Tabs(depth)) + [RBRACE]);
  }

  lemma RegroupObject(a: Data, b: Data, c: Data, d: Data, e: Data)
    ensures a + (b + c) + d + e == a + (b + (c + (d + e)))
  {
  }

  lemma MemberDone(before: Data, m: Member, format: bool, depth: nat)
    ensures before + If(format, Tabs(depth)) + Quoted(m.key) + ([COLON] + If(format, [TAB]))
              + Text(m.value, format, depth)
         == before + MemberText(m, format, depth)
  {
    hide Text, Quoted, Tabs;
    RegroupMember(before, If(format, Tabs(depth)), Quoted(m.key), [COLON], If(format, [TAB]),
                  Text(m.value, format, depth));
  }

  lemma RegroupMember(a: Data, b: Data, c: Data, d: Data, e: Data, f: Data)
    ensures a + b + c + (d + e) + f == a + (b + (c + (d + (e + f))))
  {
  }

  class PrintBuffer {
    var buffer: array<Byte>
    var offset: nat
    var depth: nat
    const noalloc: bool
    const format: bool

    constructor (buffer: array<Byte>, noalloc: bool, format: bool)
      requires buffer.Length <= INT_MAX
      ensures this.buffer == buffer && this.noalloc == noalloc && this.format == format
      ensures Valid() && offset == 0 && depth == 0
    {
      this.buffer, this.noalloc, this.format := buffer, noalloc, format;
      offset, depth := 0, 0;
    }

    ghost predicate Valid()
      reads this
    {
      buffer.Length <= INT_MAX && (offset == 0 || offset < buffer.Length)
    }

    /** How large the buffer may become. */
    ghost function Limit(): nat
      reads this
    {
      if noalloc then buffer.Length else INT_MAX
    }

    /** What has been written up to the offset. */
    ghost function Written(): Data
      requires Valid()
      reads this, buffer
    {
      buffer[..offset]
    }

    /** The buffer holds `text` and a terminating zero, and the offset has not moved past the text. */
    ghost predicate Holds(text: Data)
      reads this, buffer
    {
      offset <= |text| < buffer.Length <= INT_MAX && buffer[..|text|] == text && buffer[|text|] == 0
    }

    /** The same buffer, or a new one where that is allowed; the limit does not change. */
    twostate predicate Kept()
      reads this
    {
      (buffer == old(buffer) || (!noalloc && fresh(buffer))) && Limit() == old(Limit())
    }

    /** Makes sure that `needed` bytes and one more can be written at the offset. */
    method Ensure(needed: nat) returns (ok: bool)
      requires Valid()
      modifies this`buffer
      ensures Valid() && Kept()
      ensures ok <==> offset + needed + 1 <= Limit()
      ensures ok ==> offset + needed + 1 <= buffer.Length
      ensures Written() == old(Written())
    {
      if buffer.Length > 0 && offset >= buffer.Length {
        return false;
      }
      if needed > INT_MAX {
        return false;
      }
      var total := needed + offset + 1;
      if total <= buffer.Length {
        return true;
      }
      if noalloc {
        return false;
      }
      var newSize;
      if total > INT_MAX / 2 {
        if total <= INT_MAX {
          newSize := INT_MAX;
        } else {
          return false;
        }
      } else {
        newSize := total * 2;
      }
      var was := buffer;
      var newBuffer := new Byte[newSize];
      forall i | 0 <= i < was.Length {
        newBuffer[i] := was[i];
      }
      buffer := newBuffer;
      ok := true;
    }

    /** The offset moves to the terminating zero. */
    method UpdateOffset(ghost text: Data)
      requires Holds(text) && NoZero(text[offset..])
      modifies this`offset
      ensures Holds(text) && offset == |text|
    {
      var length := 0;
      while buffer[offset + length] != 0
        invariant offset + length <= |text|
        decreases |text| - length
      {
        assert text[offset + length] == buffer[..|text|][offset + length];
        length := length + 1;
      }
      offset := offset + length;
    }

    /** `strcpy` to the offset. */
    method Copy(text: Data)
      requires Valid() && offset + |text| < buffer.Length
      modifies buffer
      ensures Holds(old(Written()) + text)
    {
      forall i | 0 <= i < |text| {
        buffer[offset + i] := text[i];
      }
      buffer[offset + |text|] := 0;
    }

    /** Bytes written at the offset where `needed` bytes can be had; the offset moves behind them. */
    method Put(text: Data, needed: nat, terminate: bool) returns (ok: bool)
      requires Valid() && |text| <= needed
      modifies this`buffer, this`offset, buffer
      ensures Kept()
      ensures ok <==> old(offset) + needed + 1 <= Limit()
      ensures ok ==> Valid() && Written() == old(Written()) + text
    {
      ok := Ensure(needed);
      if ok {
        ghost var was := Written();
        forall i | 0 <= i < |text| {
          buffer[offset + i] := text[i];
        }
        assert buffer[..offset + |text|] == was + text;
        offset := offset + |text|;
        if terminate {
          buffer[offset] := 0;
        }
      }
    }

    /** The end of an array or object, behind which the offset does not move. */
    method PutLast(text: Data, needed: nat) returns (ok: bool)
      requires Valid() && |text| < needed && depth > 0
      modifies this`buffer, this`depth, buffer
      ensures Kept() && offset == old(offset)
      ensures ok <==> offset + needed + 1 <= Limit()
      ensures ok ==> Holds(old(Written()) + text) && depth == old(depth) - 1
    {
      ok := Ensure(needed);
      if ok {
        Copy(text);
        depth := depth - 1;
      }
    }

    /** A short number, which `%1.15g` gives exactly: it reads back, so that no more digits are tried. */
    method PrintNumber(d: real) returns (ok: bool)
      requires Valid() && Short(d)
      modifies this`buffer, this`offset, buffer
      ensures Kept()
      ensures ok <==> old(offset) + |NumberText(d)| + 2 <= Limit()
      ensures ok ==> old(offset) <= offset && Holds(old(Written()) + NumberText(d))
    {
      hide NumberText, Short;
      var numberBuffer;
      var valueInt := IntOf(d);
      if d == valueInt as real {
        IntIsNumber(d);
        numberBuffer := IntText(valueInt);
      } else {
        numberBuffer := NumberText(d);
      }
      NumberTextShort(d);
      if |numberBuffer| > 25 {
        return false;
      }
      ok := Ensure(|numberBuffer| + 1);
      if ok {
        Copy(numberBuffer);
        offset := offset + |numberBuffer|;
      }
    }

    method PrintStringPtr(input: Data) returns (ok: bool)
      requires Valid()
      modifies this`buffer, buffer
      ensures Kept() && offset == old(offset)
      ensures ok <==> offset + |Quoted(input)| + 2 <= Limit()
      ensures ok ==> Holds(old(Written()) + Quoted(input))
    {
      hide EscapeAll;
      var escapeCharacters := CountEscapes(input);
      ok := Ensure(|input| + escapeCharacters + 3);
      if ok {
        QuoteInto(input, escapeCharacters, buffer, offset);
        assert buffer[..offset + |Quoted(input)|] == buffer[..offset] + buffer[offset..offset + |Quoted(input)|];
      }
    }

    /** Printing succeeds exactly if the text, its terminating zero and one more byte fit. */
    method PrintValue(v: Json) returns (ok: bool)
      requires Valid() && Printable(v)
      modifies this`buffer, this`offset, this`depth, buffer
      ensures Kept()
      ensures ok <==> old(offset) + |Text(v, format, old(depth))| + 2 <= Limit()
      ensures ok ==> depth == old(depth) && old(offset) <= offset && Holds(old(Written()) + Text(v, format, depth))
      decreases v, 2
    {
      hide NumberText, Short, EscapeAll, ElemsText, MembersText;
      match v
      case Null =>
        ok := Ensure(5);
        if ok {
          Copy(NULL_TEXT);
        }
      case Bool(b) =>
        if b {
          ok := Ensure(5);
          if ok {
            Copy(TRUE_TEXT);
          }
        } else {
          ok := Ensure(6);
          if ok {
            Copy(FALSE_TEXT);
          }
        }
      case Num(n) => ok := PrintNumber(n);
      case Str(s) => ok := PrintStringPtr(s);
      case Arr(es) => ok := PrintArray(es);
      case Obj(ms) => ok := PrintObject(ms);
    }

    /** A value, and the offset moved behind it. */
    method PrintAndAdvance(v: Json) returns (ok: bool)
      requires Valid() && Printable(v)
      modifies this`buffer, this`offset, this`depth, buffer
      ensures Kept()
      ensures ok <==> old(offset) + |Text(v, format, old(depth))| + 2 <= Limit()
      ensures ok ==> Valid() && depth == old(depth) && Written() == old(Written()) + Text(v, format, depth)
      decreases v, 3
    {
      hide Text, Printable;
      ghost var written := Written();
      ok := PrintValue(v);
      if ok {
        TextNoZero(v, format, depth);
        NoZeroAfter(written, Text(v, format, depth), offset);
        UpdateOffset(written + Text(v, format, depth));
      }
    }

    method PrintArray(es: seq<Json>) returns (ok: bool)
      requires Valid() && Printable(Arr(es))
      modifies this`buffer, this`offset, this`depth, buffer
      ensures Kept()
      ensures ok <==> old(offset) + |Text(Arr(es), format, old(depth))| + 2 <= Limit()
      ensures ok ==> depth == old(depth) && old(offset) <= offset
      ensures ok ==> Holds(old(Written()) + Text(Arr(es), format, depth))
      decreases Arr(es), 1
    {
      hide Text, ElemsText, Printable;
      ArrayText(Written(), es, format, depth);
      ok := Put([LBRACKET], 1, false);
      if !ok {
        return;
      }
      depth := depth + 1;
      ok := PrintElems(es);
      if !ok {
        return;
      }
      ok := PutLast([RBRACKET], 2);
    }

    method PrintElems(es: seq<Json>) returns (ok: bool)
      requires Valid() && Printable(Arr(es))
      modifies this`buffer, this`offset, this`depth, buffer
      ensures Kept()
      ensures ok <==> es == [] || old(offset) + |ElemsText(es, format, old(depth))| + 2 <= Limit()
      ensures ok ==> Valid() && depth == old(depth) && Written() == old(Written()) + ElemsText(es, format, depth)
      decreases Arr(es), 0
    {
      hide Text, ElemsText;
      ghost var level := depth;
      var i := 0;
      assert es[0..] == es;
      ghost var before, written := Written(), Written();
      while i < |es|
        invariant 0 <= i <= |es| && Valid() && Kept() && depth == level && Written() == written
        invariant written + ElemsText(es[i..], format, level) == before + ElemsText(es, format, level)
        invariant i > 0 ==> offset + 2 <= Limit()
      {
        ElemsStep(written, es, i, format, level);
        ok := PrintAndAdvance(es[i]);
        if !ok {
          return;
        }
        written := written + Text(es[i], format, level);
        if i + 1 < |es| {
          var length := if format then 2 else 1;
          ok := Put([COMMA] + If(format, [SPACE]), length + 1, true);
          if !ok {
            return;
          }
          written := written + ([COMMA] + If(format, [SPACE]));
        }
        i := i + 1;
      }
      assert es[i..] == [];
      ElemsNone(format, level);
      assert written + [] == written;
      ok := true;
    }

    method PrintObject(ms: seq<Member>) returns (ok: bool)
      requires Valid() && Printable(Obj(ms))
      modifies this`buffer, this`offset, this`depth, buffer
      ensures Kept()
      ensures ok <==> old(offset) + |Text(Obj(ms), format, old(depth))| + 2 <= Limit()
      ensures ok ==> depth == old(depth) && old(offset) <= offset
      ensures ok ==> Holds(old(Written()) + Text(Obj(ms), format, depth))
      decreases Obj(ms), 1
    {
      hide Text, MembersText, Printable, Tabs, Holds;
      ObjectPieces(Written(), ms, format, depth);
      var length := if format then 2 else 1;
      ok := Put([LBRACE] + If(format, [NEWLINE]), length + 1, false);
      if !ok {
        return;
      }
      depth := depth + 1;
      ok := PrintMembers(ms);
      if !ok {
        return;
      }
      ok := PutLast(If(format, Tabs(depth - 1)) + [RBRACE], if format then depth + 1 else 2);
    }

    method PrintMembers(ms: seq<Member>) returns (ok: bool)
      requires Valid() && Printable(Obj(ms))
      modifies this`buffer, this`offset, this`depth, buffer
      ensures Kept()
      ensures ok <==> ms == [] || old(offset) + |MembersText(ms, format, old(depth))| + 2 <= Limit()
      ensures ok ==> Valid() && depth == old(depth) && Written() == old(Written()) + MembersText(ms, format, depth)
      decreases Obj(ms), 0
    {
      hide MembersText, MemberText;
      ghost var level := depth;
      var i := 0;
      assert ms[0..] == ms;
      ghost var before, written := Written(), Written();
      while i < |ms|
        invariant 0 <= i <= |ms| && Valid() && Kept() && depth == level && Written() == written
        invariant written + MembersText(ms[i..], format, level) == before + MembersText(ms, format, level)
        invariant i > 0 ==> offset + 2 <= Limit()
      {
        MembersStep(written, ms, i, format, level);
        ok := PrintMember(ms[i]);
        if !ok {
          return;
        }
        written := written + MemberText(ms[i], format, level);
        var length := (if format then 1 else 0) + (if i + 1 < |ms| then 1 else 0);
        ok := Put(If(i + 1 < |ms|, [COMMA]) + If(format, [NEWLINE]), length + 1, true);
        if !ok {
          return;
        }
        written := written + (If(i + 1 < |ms|, [COMMA]) + If(format, [NEWLINE]));
        i := i + 1;
      }
      assert ms[i..] == [];
      MembersNone(format, level);
      assert written + [] == written;
      ok := true;
    }

    /** Indent, name, colon and value. */
    method PrintMember(m: Member) returns (ok: bool)
      requires Valid() && Printable(m.value)
      modifies this`buffer, this`offset, this`depth, buffer
      ensures Kept()
      ensures ok <==> old(offset) + |MemberText(m, format, old(depth))| + 2 <= Limit()
      ensures ok ==> Valid() && depth == old(depth) && Written() == old(Written()) + MemberText(m, format, depth)
      decreases m, 0
    {
      hide Text, Printable, EscapeAll, Tabs;
      TextNotEmpty(m.value, format, depth);
      MemberDone(Written(), m, format, depth);
      if format {
        ok := Put(Tabs(depth), depth, false);
        if !ok {
          return;
        }
      }
      ghost var written := old(Written()) + If(format, Tabs(depth));
      assert Written() == written;
      ok := PrintStringPtr(m.key);
      if !ok {
        return;
      }
      QuotedNoZero(m.key);
      NoZeroAfter(written, Quoted(m.key), offset);
      UpdateOffset(written + Quoted(m.key));
      var length := if format then 2 else 1;
      ok := Put([COLON] + If(format, [TAB]), length, false);
      if !ok {
        return;
      }
      ok := PrintAndAdvance(m.value);
    }
  }

  lemma TextNotEmpty(v: Json, format: bool, depth: nat)
    ensures Text(v, format, depth) != []
  {
  }

  lemma QuotedNoZero(s: Data)
    ensures NoZero(Quoted(s))
  {
    EscapeNoZero(s);
  }

  lemma NoZeroAfter(written: Data, text: Data, offset: nat)
    requires NoZero(text) && |written| <= offset <= |written + text|
    ensures NoZero((written + text)[offset..])
  {
  }

  const DEFAULT_BUFFER_SIZE := 256

  /** The text of a value in a buffer of its own, with a terminating zero; nothing if it is too long for an `int`. */
  method Print(v: Json, format: bool) returns (printed: Option<array<Byte>>)
    requires Printable(v)
    ensures printed.Some? <==> |Text(v, format, 0)| + 2 <= INT_MAX
    ensures printed.Some? ==> printed.value[..] == Text(v, format, 0) + [0]
  {
    hide Text, Printable;
    var start := new Byte[DEFAULT_BUFFER_SIZE];
    var p := new PrintBuffer(start, false, format);
    assert p.Written() == [];
    var ok := p.PrintAndAdvance(v);
    if !ok {
      return None;
    }
    var text := new Byte[p.offset + 1];
    forall i | 0 <= i < p.offset {
      text[i] := p.buffer[i];
    }
    text[p.offset] := 0;
    assert text[..p.offset] == p.Written();
    printed := Some(text);
  }

  /** In a buffer of the caller's: the text fits exactly if two bytes more than it takes up are there. The header asks
      its callers for five. */
  method PrintPreallocated(v: Json, buffer: array<Byte>, format: bool) returns (ok: bool)
    requires Printable(v) && buffer.Length <= INT_MAX
    modifies buffer
    ensures ok <==> |Text(v, format, 0)| + 2 <= buffer.Length
    ensures ok ==> buffer[..|Text(v, format, 0)| + 1] == Text(v, format, 0) + [0]
  {
    hide Text, Printable;
    var p := new PrintBuffer(buffer, true, format);
    assert p.Written() == [];
    ok := p.PrintValue(v);
  }

  /** In a buffer that starts at a guessed size: the guess does not matter. */
  method PrintBuffered(v: Json, prebuffer: nat, format: bool) returns (printed: Option<array<Byte>>)
    requires Printable(v) && prebuffer <= INT_MAX
    ensures printed.Some? <==> |Text(v, format, 0)| + 2 <= INT_MAX
    ensures printed.Some? ==> |Text(v, format, 0)| < printed.value.Length
    ensures printed.Some? ==> printed.value[..|Text(v, format, 0)| + 1] == Text(v, format, 0) + [0]
  {
    hide Text, Printable;
    var start := new Byte[prebuffer];
    var p := new PrintBuffer(start, false, format);
    assert p.Written() == [];
    var ok := p.PrintValue(v);
    printed := if ok then Some(p.buffer) else None;
  }
}
