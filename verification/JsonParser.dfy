/** The recursive-descent parser of lib/cJSON.c, which moves an offset through a buffer and builds a tree of nodes. */
module JsonParser {
  import opened Bytes
  import opened JsonNumber
  import opened JsonString
  import opened JsonValue
  import opened JsonParse
  import opened JsonList
  import opened JsonTree

  /** `before` in front of what is parsed from here on. */
  function Prepend<T>(before: seq<T>, rest: Parsed<seq<T>>): Parsed<seq<T>>
  {
    match rest
    case Ok(after, next) => Ok(before + after, next)
    case Fail => Fail
  }

  lemma PrependOne<T>(before: seq<T>, x: T, rest: Parsed<seq<T>>)
    ensures Prepend(before, Prepend([x], rest)) == Prepend(before + [x], rest)
    ensures Prepend([], rest) == rest
  {
    if rest.Ok? {
      AppendAssoc(before, [x], rest.value);
      assert [] + rest.value == rest.value;
    }
  }

  /** A round of the loop over elements: a value, and then a comma, a bracket or neither. */
  lemma ElemsRound(c: Data, o: nat, depth: nat, before: seq<Json>)
    requires o <= |c|
    ensures match ParseValue(c, Skip(c, o), depth)
      case Ok(v, n) =>
        var m := Skip(c, n);
        Prepend(before, ParseElems(c, o, depth))
        == (if At(c, m, COMMA) then Prepend(before + [v], ParseElems(c, m + 1, depth))
            else if At(c, m, RBRACKET) then Ok(before + [v], m + 1) else Fail)
      case Fail => Prepend(before, ParseElems(c, o, depth)) == Fail
  {
    hide ParseValue, Skip;
    match ParseValue(c, Skip(c, o), depth)
    case Fail =>
    case Ok(v, n) =>
      var m := Skip(c, n);
      if At(c, m, COMMA) {
        PrependOne(before, v, ParseElems(c, m + 1, depth));
      }
  }

  lemma MembersRound(c: Data, o: nat, depth: nat, before: seq<Member>)
    requires o <= |c|
    ensures match ParseMember(c, o, depth)
      case Ok(member, n) =>
        var m := Skip(c, n);
        Prepend(before, ParseMembers(c, o, depth))
        == (if At(c, m, COMMA) then Prepend(before + [member], ParseMembers(c, m + 1, depth))
            else if At(c, m, RBRACE) then Ok(before + [member], m + 1) else Fail)
      case Fail => Prepend(before, ParseMembers(c, o, depth)) == Fail
  {
    hide ParseMember, Skip;
    match ParseMember(c, o, depth)
    case Fail =>
    case Ok(member, n) =>
      var m := Skip(c, n);
      if At(c, m, COMMA) {
        PrependOne(before, member, ParseMembers(c, m + 1, depth));
      }
  }

  class ParseBuffer {
    const content: Data
    var offset: nat
    var depth: nat

    constructor (content: Data)
      ensures this.content == content && offset == 0 && depth == 0
    {
      this.content := content;
      offset, depth := 0, 0;
    }

    predicate CanAccess(index: nat)
      reads this
    {
      offset + index < |content|
    }

    method SkipWhitespace()
      requires offset <= |content|
      modifies this`offset
      ensures offset == Skip(content, old(offset))
    {
      if !CanAccess(0) {
        return;
      }
      while CanAccess(0) && content[offset] <= 32
        invariant old(offset) <= offset <= |content|
        invariant WhiteEnd(content, offset) == WhiteEnd(content, old(offset))
        decreases |content| - offset
      {
        offset := offset + 1;
      }
      if offset == |content| {
        offset := offset - 1;
      }
    }

    method SkipUtf8Bom()
      requires offset == 0
      modifies this`offset
      ensures offset == Start(content)
    {
      if CanAccess(4) && content[..3] == BOM {
        offset := offset + 3;
      }
    }

    /** Takes as many bytes as fit the number buffer and may belong to a number. */
    method NumberItem() returns (r: Parsed<Json>)
      requires offset < |content|
      modifies this`offset
      ensures r == ParseNumber(content, old(offset)) && (r.Ok? ==> offset == r.next)
      ensures old(offset) <= offset <= |content|
    {
      var i := 0;
      while i < NUMBER_BUFFER && CanAccess(i) && NumberByte(content[offset + i])
        invariant 0 <= i <= NUMBER_BUFFER && offset + i <= |content| && offset == old(offset)
        invariant NumberEnd(content, offset + i, NUMBER_BUFFER - i) == NumberEnd(content, offset, NUMBER_BUFFER)
      {
        i := i + 1;
      }
      r := Strtod(content, offset, offset + i);
      if r.Ok? {
        offset := r.next;
      }
    }

    method StringItem() returns (r: Option<Data>)
      requires offset < |content|
      modifies this`offset
      ensures match Literal(content, old(offset))
        case None => r == None
        case Some((s, n)) => r == Some(s) && offset == n
      ensures old(offset) < offset <= |content|
    {
      r, offset := ParseString(content, offset);
    }

    /** Reads a value into a new node. */
    method ValueItem(item: Node) returns (r: Parsed<Json>, ghost t: Shape)
      requires offset <= |content| && item.child == null
      modifies this, item`kind, item`valueInt, item`valueDouble, item`valueString, item`child
      ensures r == ParseValue(content, old(offset), old(depth))
      ensures r.Ok? ==> offset == r.next && depth == old(depth)
      ensures old(offset) <= offset <= |content|
      ensures r.Ok? ==> t.node == item && fresh(Below(t)) && Built(t, r.value)
      decreases |content| - offset, 1
    {
      hide Literal, ParseNumber, ParseArray, ParseObject, Built;
      t := Shape(item, []);
      NoNodes();
      if offset + 4 <= |content| && content[offset..offset + 4] == NULL_TEXT {
        item.kind := NullKind;
        offset := offset + 4;
        Leaf(item, Null);
        return Ok(Null, offset), t;
      }
      if offset + 5 <= |content| && content[offset..offset + 5] == FALSE_TEXT {
        item.kind := FalseKind;
        offset := offset + 5;
        Leaf(item, Bool(false));
        return Ok(Bool(false), offset), t;
      }
      if offset + 4 <= |content| && content[offset..offset + 4] == TRUE_TEXT {
        item.kind := TrueKind;
        offset := offset + 4;
        Leaf(item, Bool(true));
        return Ok(Bool(true), offset), t;
      }
      if CanAccess(0) && content[offset] == QUOTE {
        var s := StringItem();
        if s.None? {
          return Fail, t;
        }
        item.kind, item.valueString := StringKind, s.value;
        Leaf(item, Str(s.value));
        return Ok(Str(s.value), offset), t;
      }
      if CanAccess(0) && (content[offset] == MINUS || 48 <= content[offset] <= 57) {
        r := NumberItem();
        if r.Ok? {
          item.kind, item.valueDouble, item.valueInt := NumberKind, r.value.value, IntOf(r.value.value);
          Leaf(item, r.value);
        }
        return;
      }
      if CanAccess(0) && content[offset] == LBRACKET {
        r, t := ArrayItem(item);
        return;
      }
      if CanAccess(0) && content[offset] == LBRACE {
        r, t := ObjectItem(item);
        return;
      }
      r := Fail;
    }

    method ArrayItem(item: Node) returns (r: Parsed<Json>, ghost t: Shape)
      requires CanAccess(0) && content[offset] == LBRACKET && item.child == null
      modifies this, item`kind, item`valueInt, item`valueDouble, item`valueString, item`child
      ensures r == ParseArray(content, old(offset), old(depth))
      ensures r.Ok? ==> offset == r.next && depth == old(depth)
      ensures old(offset) <= offset <= |content|
      ensures r.Ok? ==> t.node == item && fresh(Below(t)) && Built(t, r.value)
      decreases |content| - offset, 0
    {
      hide Skip, ParseElems, BuiltAll, Linked, Built, Separate, RootSet, BelowAll, Roots, Links;
      t := Shape(item, []);
      NoneBuilt();
      if depth >= NESTING_LIMIT {
        return Fail, t;
      }
      depth := depth + 1;
      offset := offset + 1;
      SkipWhitespace();
      if CanAccess(0) && content[offset] == RBRACKET {
        depth := depth - 1;
        CloseArray(item, null, null, [], []);
        offset := offset + 1;
        return Ok(Arr([]), offset), t;
      }
      if !CanAccess(0) {
        offset := offset - 1;
        return Fail, t;
      }
      offset := offset - 1;
      var items, head, current;
      ghost var ts;
      items, head, current, ts := Elements();
      if !items.Ok? {
        return Fail, t;
      }
      depth := depth - 1;
      CloseArray(item, head, current, ts, items.value);
      offset := offset + 1;
      r, t := Ok(Arr(items.value), offset), Shape(item, ts);
    }

    /** The loop over elements, up to the closing bracket. */
    method Elements() returns (r: Parsed<seq<Json>>, head: Node?, current: Node?, ghost ts: seq<Shape>)
      requires offset < |content|
      modifies this
      ensures r == ParseElems(content, old(offset) + 1, old(depth))
      ensures r.Ok? ==> offset + 1 == r.next && depth == old(depth)
      ensures old(offset) <= offset <= |content|
      ensures r.Ok? ==> BuiltAll(ts, r.value) && Linked(Roots(ts)) && fresh(RootSet(ts)) && fresh(BelowAll(ts))
      ensures r.Ok? ==> head == (if ts == [] then null else ts[0].node)
      ensures r.Ok? ==> current == (if ts == [] then null else ts[|ts| - 1].node)
      decreases |content| - offset - 1, 3
    {
      hide Skip, ParseValue, ParseElems, BuiltAll, Linked, Built, Separate, RootSet, BelowAll, Roots, Links;
      ghost var start, level := offset, depth;
      ghost var all := ParseElems(content, start + 1, level);
      var items: seq<Json>, more := [], true;
      head, current, ts := null, null, [];
      NoneBuilt();
      PrependOne([], Null, all);
      while more
        invariant start <= offset < |content| || (!more && offset == |content|)
        invariant depth == level
        invariant all == if more then Prepend(items, ParseElems(content, offset + 1, level))
                         else if At(content, offset, RBRACKET) then Ok(items, offset + 1) else Fail
        invariant !more ==> !At(content, offset, COMMA)
        invariant BuiltAll(ts, items) && Linked(Roots(ts)) && fresh(RootSet(ts)) && fresh(BelowAll(ts))
        invariant head == (if ts == [] then null else ts[0].node)
        invariant current == (if ts == [] then null else ts[|ts| - 1].node)
        decreases |content| - offset, more
      {
        ElemsRound(content, offset + 1, level, items);
        var v, newItem;
        ghost var kid;
        v, newItem, kid := Element(current, ts, items);
        if !v.Ok? {
          return Fail, head, current, ts;
        }
        if head == null {
          head := newItem;
        }
        current := newItem;
        OneMore(ts, kid);
        ts := ts + [kid];
        items := items + [v.value];
        more := CanAccess(0) && content[offset] == COMMA;
      }
      if !CanAccess(0) || content[offset] != RBRACKET {
        return Fail, head, current, ts;
      }
      r := Ok(items, offset + 1);
    }

    /** One round of the loop over elements, from behind the current byte on: a new node at the end of the list, and
        what it holds. */
    method Element(current: Node?, ghost ts: seq<Shape>, ghost items: seq<Json>)
      returns (r: Parsed<Json>, newItem: Node, ghost kid: Shape)
      requires offset < |content| && BuiltAll(ts, items) && Linked(Roots(ts))
      requires current == if ts == [] then null else ts[|ts| - 1].node
      modifies this, Only(current)`next
      ensures r == ParseValue(content, Skip(content, old(offset) + 1), old(depth)) && fresh(newItem)
      ensures r.Ok? ==>
        && offset == Skip(content, r.next) && depth == old(depth)
        && kid.node == newItem && fresh(Below(kid))
        && BuiltAll(ts + [kid], items + [r.value]) && Linked(Roots(ts + [kid]))
      ensures old(offset) <= offset <= |content|
      decreases |content| - offset - 1, 2
    {
      hide Skip, ParseValue, BuiltAll, Linked, Built, Separate, RootSet, BelowAll, Roots, Below;
      LastRoot(ts, items);
      assert allocated(RootSet(ts)) && allocated(BelowAll(ts));
      newItem := AppendNew(current, Roots(ts));
      offset := offset + 1;
      SkipWhitespace();
      r, kid := ValueItem(newItem);
      if r.Ok? {
        BuiltMore(ts, items, kid, r.value);
        OneMore(ts, kid);
        assert allocated(RootSet(ts + [kid])) && allocated(BelowAll(ts + [kid]));
        SkipWhitespace();
      }
    }

    /** The same for members. */
    method NextMember(current: Node?, ghost ts: seq<Shape>, ghost items: seq<Member>)
      returns (r: Parsed<Member>, newItem: Node, ghost kid: Shape)
      requires offset < |content| && BuiltMembers(ts, items) && Linked(Roots(ts))
      requires current == if ts == [] then null else ts[|ts| - 1].node
      modifies this, Only(current)`next
      ensures r == ParseMember(content, old(offset) + 1, old(depth)) && fresh(newItem)
      ensures r.Ok? ==>
        && offset == Skip(content, r.next) && depth == old(depth)
        && kid.node == newItem && fresh(Below(kid))
        && BuiltMembers(ts + [kid], items + [r.value]) && Linked(Roots(ts + [kid]))
      ensures old(offset) <= offset <= |content|
      decreases |content| - offset - 1, 3
    {
      hide Skip, ParseMember, BuiltMembers, Linked, Built, Separate, RootSet, BelowAll, Roots, Below;
      LastMember(ts, items);
      assert allocated(RootSet(ts)) && allocated(BelowAll(ts));
      newItem := AppendNew(current, Roots(ts));
      r, kid := MemberItem(newItem);
      if r.Ok? {
        BuiltMember(ts, items, kid, r.value);
        OneMore(ts, kid);
        assert allocated(RootSet(ts + [kid])) && allocated(BelowAll(ts + [kid]));
        SkipWhitespace();
      }
    }

    method ObjectItem(item: Node) returns (r: Parsed<Json>, ghost t: Shape)
      requires CanAccess(0) && content[offset] == LBRACE && item.child == null
      modifies this, item`kind, item`valueInt, item`valueDouble, item`valueString, item`child
      ensures r == ParseObject(content, old(offset), old(depth))
      ensures r.Ok? ==> offset == r.next && depth == old(depth)
      ensures old(offset) <= offset <= |content|
      ensures r.Ok? ==> t.node == item && fresh(Below(t)) && Built(t, r.value)
      decreases |content| - offset, 0
    {
      hide Skip, ParseMembers, BuiltMembers, Linked, Built, Separate, RootSet, BelowAll, Roots, Links;
      t := Shape(item, []);
      NoneBuilt();
      if depth >= NESTING_LIMIT {
        return Fail, t;
      }
      depth := depth + 1;
      offset := offset + 1;
      SkipWhitespace();
      if CanAccess(0) && content[offset] == RBRACE {
        depth := depth - 1;
        CloseObject(item, null, null, [], []);
        offset := offset + 1;
        return Ok(Obj([]), offset), t;
      }
      if !CanAccess(0) {
        offset := offset - 1;
        return Fail, t;
      }
      offset := offset - 1;
      var items, head, current;
      ghost var ts;
      items, head, current, ts := Members();
      if !items.Ok? {
        return Fail, t;
      }
      depth := depth - 1;
      CloseObject(item, head, current, ts, items.value);
      offset := offset + 1;
      r, t := Ok(Obj(items.value), offset), Shape(item, ts);
    }

    /** The loop over members, up to the closing brace. */
    method Members() returns (r: Parsed<seq<Member>>, head: Node?, current: Node?, ghost ts: seq<Shape>)
      requires offset < |content|
      modifies this
      ensures r == ParseMembers(content, old(offset) + 1, old(depth))
      ensures r.Ok? ==> offset + 1 == r.next && depth == old(depth)
      ensures old(offset) <= offset <= |content|
      ensures r.Ok? ==> BuiltMembers(ts, r.value) && Linked(Roots(ts)) && fresh(RootSet(ts)) && fresh(BelowAll(ts))
      ensures r.Ok? ==> head == (if ts == [] then null else ts[0].node)
      ensures r.Ok? ==> current == (if ts == [] then null else ts[|ts| - 1].node)
      decreases |content| - offset - 1, 4
    {
      hide Skip, ParseMember, ParseMembers, BuiltMembers, Linked, Built, Separate, RootSet, BelowAll, Roots, Links;
      ghost var start, level := offset, depth;
      ghost var all := ParseMembers(content, start + 1, level);
      var items: seq<Member>, more := [], true;
      head, current, ts := null, null, [];
      NoneBuilt();
      PrependOne([], Member([], Null), all);
      while more
        invariant start <= offset < |content| || (!more && offset == |content|)
        invariant depth == level
        invariant all == if more then Prepend(items, ParseMembers(content, offset + 1, level))
                         else if At(content, offset, RBRACE) then Ok(items, offset + 1) else Fail
        invariant !more ==> !At(content, offset, COMMA)
        invariant BuiltMembers(ts, items) && Linked(Roots(ts)) && fresh(RootSet(ts)) && fresh(BelowAll(ts))
        invariant head == (if ts == [] then null else ts[0].node)
        invariant current == (if ts == [] then null else ts[|ts| - 1].node)
        decreases |content| - offset, more
      {
        MembersRound(content, offset + 1, level, items);
        var m, newItem;
        ghost var kid;
        m, newItem, kid := NextMember(current, ts, items);
        if !m.Ok? {
          return Fail, head, current, ts;
        }
        if head == null {
          head := newItem;
        }
        current := newItem;
        OneMore(ts, kid);
        ts := ts + [kid];
        items := items + [m.value];
        more := CanAccess(0) && content[offset] == COMMA;
      }
      if !CanAccess(0) || content[offset] != RBRACE {
        return Fail, head, current, ts;
      }
      r := Ok(items, offset + 1);
    }

    /** A name, a colon and a value, from behind the current byte on. */
    method MemberItem(item: Node) returns (r: Parsed<Member>, ghost t: Shape)
      requires CanAccess(0) && item.child == null
      modifies this, item`kind, item`valueInt, item`valueDouble, item`valueString, item`child, item`name
      ensures r == ParseMember(content, old(offset) + 1, old(depth))
      ensures r.Ok? ==> offset == r.next && depth == old(depth)
      ensures old(offset) <= offset <= |content|
      ensures r.Ok? ==> t.node == item && fresh(Below(t)) && Built(t, r.value.value) && item.name == r.value.key
      decreases |content| - offset - 1, 2
    {
      hide Skip, Literal, ParseValue, Built, Below;
      t := Shape(item, []);
      if !CanAccess(1) {
        return Fail, t;
      }
      offset := offset + 1;
      SkipWhitespace();
      var name := StringItem();
      if name.None? {
        return Fail, t;
      }
      item.name := name.value;
      SkipWhitespace();
      if !CanAccess(0) || content[offset] != COLON {
        return Fail, t;
      }
      offset := offset + 1;
      SkipWhitespace();
      var v;
      v, t := ValueItem(item);
      if !v.Ok? {
        return Fail, t;
      }
      r := Ok(Member(name.value, v.value), v.next);
    }
  }

  /** The whole of a text of `content`, its terminating zero included: a tree of nodes that holds the value, or none.
      `parseEnd` is behind the value, or where the text stops making sense: on a byte of it. */
  method ParseWithLengthOpts(content: Data, requireNullTerminated: bool)
    returns (r: Parsed<Json>, root: Node?, parseEnd: nat, ghost t: Shape)
    ensures r == Parse(content, requireNullTerminated)
    ensures root != null <==> r.Ok?
    ensures r.Ok? ==> t.node == root && fresh(root) && fresh(Below(t)) && Built(t, r.value)
    ensures if r.Ok? then parseEnd == r.next
            else if content == [] then parseEnd == 0
            else Start(content) <= parseEnd < |content|
  {
    hide Skip, ParseValue, Built;
    var item := new Node();
    r, root, parseEnd, t := Fail, null, 0, Shape(item, []);
    if content == [] {
      return;
    }
    var buffer := new ParseBuffer(content);
    buffer.SkipUtf8Bom();
    buffer.SkipWhitespace();
    r, t := buffer.ValueItem(item);
    assert r.Ok? ==> allocated(Below(t));
    if r.Ok? && requireNullTerminated {
      buffer.SkipWhitespace();
      if !buffer.CanAccess(0) || content[buffer.offset] != 0 {
        r := Fail;
      }
    }
    if r.Ok? {
      r, root, parseEnd := Ok(r.value, buffer.offset), item, buffer.offset;
    } else {
      parseEnd := if buffer.offset < |content| then buffer.offset else |content| - 1;
    }
  }
}
