/** The serializer as written in mrbgems/json-with-casing/src/parson.c, lines 829-1059 and 1503-1625:
    one recursive pass that either only counts bytes or also writes them, run twice: first for the
    size of the buffer, then into it. */
module JsonSerializer {
  import opened Bytes
  import opened Entries
  import opened JsonTree
  import opened JsonSyntax
  import opened JsonPrinter

  // after differs from before only in t, which now stands at offset at, and possibly in the one byte
  // behind it.
  ghost predicate Wrote(after: Text, before: Text, at: nat, t: Text) {
    && |after| == |before|
    && at + |t| < |before|
    && after[..at] == before[..at]
    && after[at..at + |t|] == t
    && after[at + |t| + 1..] == before[at + |t| + 1..]
  }

  lemma WroteTwice(a: Text, b: Text, c: Text, at: nat, t: Text, u: Text)
    requires Wrote(b, a, at, t) && Wrote(c, b, at + |t|, u)
    ensures Wrote(c, a, at, t + u)
  {
    assert c[..at] == c[..at + |t|][..at];
    assert c[at..at + |t + u|] == c[at..at + |t|] + c[at + |t|..at + |t| + |u|];
    assert c[at..at + |t|] == c[..at + |t|][at..] == b[at..at + |t|];
    assert a[at + |t + u| + 1..] == a[at + |t| + 1..][|u|..];
  }

  ghost function Contents(buf: array?<byte>): Text
    reads buf
  {
    if buf == null then [] else buf[..]
  }

  // In the writing pass, exactly t was written at offset at since the contents were start.
  ghost predicate Written(buf: array?<byte>, start: Text, at: nat, t: Text)
    reads buf
  {
    buf != null ==> Wrote(buf[..], start, at, t)
  }

  ghost predicate Terminated(buf: array?<byte>, at: nat)
    reads buf
  {
    buf != null ==> at < buf.Length && buf[at] == NUL
  }

  // A buffer that is absent in the counting pass, with room for t and a terminator in the other one.
  ghost predicate Room(buf: array?<byte>, at: nat, t: Text) {
    buf != null ==> at + |t| < buf.Length
  }

  /** append_string: copies t and a terminator, or only counts. */
  method AppendString(buf: array?<byte>, at: nat, t: Text) returns (written: nat)
    requires Room(buf, at, t)
    modifies buf
    ensures written == |t|
    ensures Written(buf, old(Contents(buf)), at, t) && Terminated(buf, at + |t|)
  {
    if buf == null {
      return |t|;
    }
    forall i | 0 <= i < |t| {
      buf[at + i] := t[i];
    }
    buf[at + |t|] := NUL;
    return |t|;
  }

  /** APPEND_STRING: t is added behind what was written since the buffer had the given contents. */
  method Append(buf: array?<byte>, at: nat, ghost start: Text, ghost done: Text, written: nat, t: Text)
    returns (total: nat)
    requires written == |done| && Room(buf, at, done + t)
    requires Written(buf, start, at, done)
    modifies buf
    ensures total == |done + t|
    ensures Written(buf, start, at, done + t) && Terminated(buf, at + total)
  {
    ghost var before := Contents(buf);
    var w := AppendString(buf, at + written, t);
    if buf != null {
      WroteTwice(start, before, buf[..], at, done, t);
    }
    total := written + w;
  }

  /** append_indent, called in pretty mode only */
  method AppendIndent(buf: array?<byte>, at: nat, level: nat) returns (written: nat)
    requires Room(buf, at, Indent(level, true))
    modifies buf
    ensures written == |Indent(level, true)|
    ensures Written(buf, old(Contents(buf)), at, Indent(level, true))
  {
    hide Wrote, Indent;
    ghost var start := Contents(buf);
    written := 0;
    NoIndent(buf, at, level);
    for i := 0 to level
      invariant written == |Indent(i, true)| && Written(buf, start, at, Indent(i, true))
    {
      IndentAtEnd(i);
      IndentGrows(i + 1, level);
      written := Append(buf, at, start, Indent(i, true), written, INDENT);
    }
  }

  lemma NoIndent(buf: array?<byte>, at: nat, level: nat)
    requires Room(buf, at, Indent(level, true))
    ensures Indent(0, true) == [] && Written(buf, Contents(buf), at, Indent(0, true))
  {
  }

  lemma IndentGrows(i: nat, level: nat)
    requires i <= level
    ensures |Indent(i, true)| <= |Indent(level, true)|
  {
    IndentText(i);
    IndentText(level);
  }

  lemma {:induction false} IndentAtEnd(level: nat)
    ensures Indent(level, true) + INDENT == Indent(level + 1, true)
  {
    IndentText(level);
    IndentText(level + 1);
  }

  lemma {:induction false} EscapeAllSplit(s: Text, i: nat)
    requires i <= |s|
    ensures EscapeAll(s) == EscapeAll(s[..i]) + EscapeAll(s[i..])
  {
    hide Escape;
    if i == 0 {
      assert s[0..] == s;
    } else {
      EscapeAllSplit(s[1..], i - 1);
      assert s[..i][1..] == s[1..][..i - 1];
      assert s[i..] == s[1..][i - 1..];
    }
  }

  lemma EscapeOne(s: Text, i: nat)
    requires i < |s|
    ensures EscapeAll(s[..i + 1]) == EscapeAll(s[..i]) + Escape(s[i])
    ensures |EscapeAll(s[..i + 1])| <= |EscapeAll(s)|
  {
    hide Escape;
    EscapeAllSplit(s[..i + 1], i);
    EscapeAllSplit(s, i + 1);
    assert s[..i + 1][..i] == s[..i];
    assert s[..i + 1][i..] == [s[i]];
    assert EscapeAll([s[i]]) == Escape(s[i]) + EscapeAll([s[i]][1..]);
  }

  // buf[0] = c: one byte is stored, without a terminator.
  method AppendByte(buf: array?<byte>, at: nat, ghost start: Text, ghost done: Text, count: nat, c: byte)
    returns (total: nat)
    requires count == |done| && Room(buf, at, done + [c])
    requires Written(buf, start, at, done)
    modifies buf
    ensures total == |done + [c]|
    ensures Written(buf, start, at, done + [c])
  {
    hide Wrote;
    if buf != null {
      ghost var before := buf[..];
      buf[at + count] := c;
      OneByteWrote(before, buf[..], at + count, c);
      WroteTwice(start, before, buf[..], at, done, [c]);
    }
    total := count + 1;
  }

  /** json_serialize_string */
  method SerializeString(s: Text, buf: array?<byte>, at: nat) returns (written: nat)
    requires Room(buf, at, StringText(s))
    modifies buf
    ensures written == |StringText(s)|
    ensures Written(buf, old(Contents(buf)), at, StringText(s)) && Terminated(buf, at + written)
  {
    hide Escape, EscapeAll, Written, Terminated, Contents;
    ghost var start := Contents(buf);
    NothingWritten(buf, at);
    written := Append(buf, at, start, [], 0, [QUOTE]);
    ghost var done := [QUOTE];
    EscapeAllOfNothing();
    assert [] + [QUOTE] == done;
    assert s[..0] == [] && done == [QUOTE] + [];
    for i := 0 to |s|
      invariant done == [QUOTE] + EscapeAll(s[..i])
      invariant written == |done|
      invariant Written(buf, start, at, done)
    {
      EscapeOne(s, i);
      var c := s[i];
      if Escape(c) == [c] {
        written := AppendByte(buf, at, start, done, written, c);
      } else {
        written := Append(buf, at, start, done, written, Escape(c));
      }
      done := done + Escape(c);
      assert done == [QUOTE] + EscapeAll(s[..i + 1]);
    }
    assert s[..|s|] == s;
    written := Append(buf, at, start, done, written, [QUOTE]);
  }

  lemma EscapeAllOfNothing()
    ensures EscapeAll([]) == []
  {
  }

  lemma NothingWritten(buf: array?<byte>, at: nat)
    requires Room(buf, at, [])
    ensures Written(buf, Contents(buf), at, [])
  {
  }

  lemma OneByteWrote(before: Text, after: Text, at: nat, c: byte)
    requires at + 1 < |before| && after == before[at := c]
    ensures Wrote(after, before, at, [c])
  {
  }

  // What the loop over the items writes in turn i.
  function ItemPart(items: seq<Json>, i: nat, level: nat, pretty: bool): Text
    requires i < |items|
  {
    Indent(level + 1, pretty) + Print(items[i], level + 1, pretty) + Separator(|items| - i, pretty)
  }

  lemma ItemsFrom(items: seq<Json>, i: nat, level: nat, pretty: bool)
    requires i < |items|
    ensures PrintItems(items[i..], level, pretty) ==
            ItemPart(items, i, level, pretty) + PrintItems(items[i + 1..], level, pretty)
  {
    hide Print, Indent, Separator;
    assert items[i..][1..] == items[i + 1..];
  }

  /** json_serialize_to_buffer_r: with no buffer it returns exactly the number of bytes the writing
      pass emits, and the writing pass touches only those bytes and one terminator. */
  method SerializeToBuffer(v: Json, buf: array?<byte>, at: nat, level: nat, pretty: bool) returns (written: nat)
    requires Room(buf, at, Print(v, level, pretty))
    modifies buf
    ensures written == |Print(v, level, pretty)|
    ensures Written(buf, old(Contents(buf)), at, Print(v, level, pretty)) && Terminated(buf, at + written)
    decreases v, 0
  {
    hide EscapeAll, LeafText, PrintItems, PrintMembers, Written, Terminated, Contents;
    match v
    case Array(items) =>
      written := SerializeArray(items, buf, at, level, pretty);
    case Object(members) =>
      written := SerializeObject(members, buf, at, level, pretty);
    case String(s) =>
      written := SerializeString(s, buf, at);
    case _ =>
      written := AppendString(buf, at, LeafText(v));
  }

  // The part of an entry behind its value.
  method AppendSeparator(buf: array?<byte>, at: nat, ghost start: Text, ghost done: Text, count: nat, left: nat,
                         pretty: bool) returns (total: nat)
    requires count == |done| && Room(buf, at, done + Separator(left, pretty))
    requires Written(buf, start, at, done)
    modifies buf
    ensures total == |done + Separator(left, pretty)|
    ensures Written(buf, start, at, done + Separator(left, pretty))
  {
    hide Wrote;
    total := count;
    ghost var soFar := done;
    if left > 1 {
      total := Append(buf, at, start, done, count, [COMMA]);
      soFar := done + [COMMA];
    }
    if pretty {
      total := Append(buf, at, start, soFar, total, [LINE_FEED]);
    }
    assert done + Separator(left, pretty) == if pretty then soFar + [LINE_FEED] else soFar;
  }

  // APPEND_INDENT, in pretty mode only.
  method AppendIndentation(buf: array?<byte>, at: nat, ghost start: Text, ghost done: Text, count: nat, level: nat,
                           pretty: bool) returns (total: nat)
    requires count == |done| && Room(buf, at, done + Indent(level, pretty))
    requires Written(buf, start, at, done)
    modifies buf
    ensures total == |done + Indent(level, pretty)|
    ensures Written(buf, start, at, done + Indent(level, pretty))
  {
    hide Wrote;
    total := count;
    if pretty {
      ghost var before := Contents(buf);
      var w := AppendIndent(buf, at + count, level);
      if buf != null {
        WroteTwice(start, before, buf[..], at, done, Indent(level, pretty));
      }
      total := count + w;
    } else {
      assert done + Indent(level, pretty) == done;
    }
  }

  // The recursive call for an entry's value.
  method AppendValue(v: Json, buf: array?<byte>, at: nat, ghost start: Text, ghost done: Text, count: nat, level: nat,
                     pretty: bool) returns (total: nat)
    requires count == |done| && Room(buf, at, done + Print(v, level, pretty))
    requires Written(buf, start, at, done)
    modifies buf
    ensures total == |done + Print(v, level, pretty)|
    ensures Written(buf, start, at, done + Print(v, level, pretty))
    decreases v, 1
  {
    hide Wrote, Print;
    ghost var before := Contents(buf);
    var w := SerializeToBuffer(v, buf, at + count, level, pretty);
    if buf != null {
      WroteTwice(start, before, buf[..], at, done, Print(v, level, pretty));
    }
    total := count + w;
  }

  // Moving an entry from what is to be written to what is done.
  lemma Moved(done: Text, part: Text, rest: Text)
    ensures done + (part + rest) == (done + part) + rest
  {
  }

  // An entry, whose part in front of the value stands already, with its value and separator.
  method AppendEntry(v: Json, buf: array?<byte>, at: nat, ghost start: Text, ghost done: Text, count: nat, left: nat,
                     level: nat, pretty: bool) returns (total: nat)
    requires count == |done| && Room(buf, at, done + Print(v, level, pretty) + Separator(left, pretty))
    requires Written(buf, start, at, done)
    modifies buf
    ensures total == |done + Print(v, level, pretty) + Separator(left, pretty)|
    ensures Written(buf, start, at, done + Print(v, level, pretty) + Separator(left, pretty))
    decreases v, 2
  {
    hide Written, Terminated, Contents, Print, Separator;
    total := AppendValue(v, buf, at, start, done, count, level, pretty);
    total := AppendSeparator(buf, at, start, done + Print(v, level, pretty), total, left, pretty);
  }

  function Opening(open: byte, entries: nat, pretty: bool): Text {
    [open] + if entries == 0 then [] else NewLine(pretty)
  }

  function Closing(close: byte, entries: nat, level: nat, pretty: bool): Text {
    (if entries == 0 then [] else Indent(level, pretty)) + [close]
  }

  // The opening bracket, and a line break if entries follow in pretty mode.
  method AppendOpening(open: byte, entries: nat, buf: array?<byte>, at: nat, pretty: bool) returns (total: nat)
    requires Room(buf, at, Opening(open, entries, pretty))
    modifies buf
    ensures total == |Opening(open, entries, pretty)|
    ensures Written(buf, old(Contents(buf)), at, Opening(open, entries, pretty))
  {
    hide Wrote;
    ghost var start := Contents(buf);
    NothingWritten(buf, at);
    total := Append(buf, at, start, [], 0, [open]);
    if entries > 0 && pretty {
      total := Append(buf, at, start, [] + [open], total, [LINE_FEED]);
    }
    assert Opening(open, entries, pretty) ==
           if entries > 0 && pretty then [] + [open] + [LINE_FEED] else [] + [open];
  }

  // The closing bracket, indented if there are entries in pretty mode.
  method AppendClosing(close: byte, entries: nat, buf: array?<byte>, at: nat, ghost start: Text, ghost done: Text,
                       count: nat, level: nat, pretty: bool) returns (total: nat)
    requires count == |done| && Room(buf, at, done + Closing(close, entries, level, pretty))
    requires Written(buf, start, at, done)
    modifies buf
    ensures total == |done + Closing(close, entries, level, pretty)|
    ensures Written(buf, start, at, done + Closing(close, entries, level, pretty)) && Terminated(buf, at + total)
  {
    hide Wrote, Indent;
    ghost var indent := if entries == 0 then [] else Indent(level, pretty);
    assert done + Closing(close, entries, level, pretty) == (done + indent) + [close];
    total := count;
    if entries > 0 {
      total := AppendIndentation(buf, at, start, done, count, level, pretty);
    } else {
      assert done + indent == done;
    }
    total := Append(buf, at, start, done + indent, total, [close]);
  }

  // One turn of the loop over the items.
  method AppendItem(items: seq<Json>, i: nat, buf: array?<byte>, at: nat, ghost start: Text, ghost done: Text,
                    count: nat, level: nat, pretty: bool) returns (total: nat)
    requires i < |items| && count == |done| && Room(buf, at, done + ItemPart(items, i, level, pretty))
    requires Written(buf, start, at, done)
    modifies buf
    ensures total == |done + ItemPart(items, i, level, pretty)|
    ensures Written(buf, start, at, done + ItemPart(items, i, level, pretty))
    decreases items, 0
  {
    hide Print, Separator, Indent, Written;
    ghost var a, b := Indent(level + 1, pretty), Print(items[i], level + 1, pretty);
    assert done + ItemPart(items, i, level, pretty) == done + a + b + Separator(|items| - i, pretty);
    total := AppendIndentation(buf, at, start, done, count, level + 1, pretty);
    total := AppendEntry(items[i], buf, at, start, done + a, total, |items| - i, level + 1, pretty);
  }

  // The loop over the items.
  method AppendItems(items: seq<Json>, buf: array?<byte>, at: nat, ghost start: Text, ghost done: Text, count: nat,
                     level: nat, pretty: bool) returns (total: nat)
    requires count == |done| && Room(buf, at, done + PrintItems(items, level, pretty))
    requires Written(buf, start, at, done)
    modifies buf
    ensures total == |done + PrintItems(items, level, pretty)|
    ensures Written(buf, start, at, done + PrintItems(items, level, pretty))
    decreases items, 1
  {
    hide Print, PrintItems, Written, ItemPart;
    total := count;
    ghost var soFar := done;
    assert items[0..] == items;
    for i := 0 to |items|
      invariant done + PrintItems(items, level, pretty) == soFar + PrintItems(items[i..], level, pretty)
      invariant total == |soFar|
      invariant Written(buf, start, at, soFar)
    {
      ItemsFrom(items, i, level, pretty);
      ghost var part := ItemPart(items, i, level, pretty);
      Moved(soFar, part, PrintItems(items[i + 1..], level, pretty));
      total := AppendItem(items, i, buf, at, start, soFar, total, level, pretty);
      soFar := soFar + part;
    }
    NoItems(items, level, pretty);
    assert soFar + [] == soFar;
  }

  method SerializeArray(items: seq<Json>, buf: array?<byte>, at: nat, level: nat, pretty: bool) returns (written: nat)
    requires Room(buf, at, Print(Array(items), level, pretty))
    modifies buf
    ensures written == |Print(Array(items), level, pretty)|
    ensures Written(buf, old(Contents(buf)), at, Print(Array(items), level, pretty))
    ensures Terminated(buf, at + written)
    decreases items, 2
  {
    ghost var start := Contents(buf);
    ghost var open, close := Opening(LBRACKET, |items|, pretty), Closing(RBRACKET, |items|, level, pretty);
    ArrayParts(items, level, pretty);
    hide Print, PrintItems, Written, Terminated, Contents, Opening, Closing;
    written := AppendOpening(LBRACKET, |items|, buf, at, pretty);
    written := AppendItems(items, buf, at, start, open, written, level, pretty);
    written := AppendClosing(RBRACKET, |items|, buf, at, start, open + PrintItems(items, level, pretty), written, level,
                             pretty);
  }

  lemma ArrayParts(items: seq<Json>, level: nat, pretty: bool)
    ensures Print(Array(items), level, pretty) ==
            Opening(LBRACKET, |items|, pretty) + PrintItems(items, level, pretty)
            + Closing(RBRACKET, |items|, level, pretty)
  {
    if items == [] {
      assert PrintItems(items, level, pretty) == [];
    } else {
      hide PrintItems, Indent, NewLine;
      FiveParts([LBRACKET], NewLine(pretty), PrintItems(items, level, pretty), Indent(level, pretty), [RBRACKET]);
    }
  }

  lemma FiveParts(a: Text, b: Text, c: Text, d: Text, e: Text)
    ensures a + b + c + d + e == (a + b) + c + (d + e)
  {
  }

  lemma NoItems(items: seq<Json>, level: nat, pretty: bool)
    ensures PrintItems(items[|items|..], level, pretty) == []
  {
  }

  lemma ObjectParts(members: seq<Entry<Json>>, level: nat, pretty: bool)
    ensures Print(Object(members), level, pretty) ==
            Opening(LBRACE, |members|, pretty) + PrintMembers(members, 0, level, pretty)
            + Closing(RBRACE, |members|, level, pretty)
  {
    if members == [] {
      assert PrintMembers(members, 0, level, pretty) == [];
    } else {
      hide PrintMembers, Indent, NewLine;
      FiveParts([LBRACE], NewLine(pretty), PrintMembers(members, 0, level, pretty), Indent(level, pretty), [RBRACE]);
    }
  }

  // The text in front of the value of a member.
  function KeyPart(name: CString, level: nat, pretty: bool): Text {
    Indent(level + 1, pretty) + StringText(name) + ([COLON] + if pretty then [SPACE] else [])
  }

  // What the loop over the members writes in turn i; the value is looked up by name.
  function MemberPart(members: seq<Entry<Json>>, i: nat, level: nat, pretty: bool): Text
    requires i < |members|
  {
    KeyPart(members[i].name, level, pretty)
    + Print(members[Find(members, members[i].name)].value, level + 1, pretty)
    + Separator(|members| - i, pretty)
  }

  lemma MembersFrom(members: seq<Entry<Json>>, i: nat, level: nat, pretty: bool)
    requires i < |members|
    ensures PrintMembers(members, i, level, pretty) ==
            MemberPart(members, i, level, pretty) + PrintMembers(members, i + 1, level, pretty)
  {
    hide Print, Indent, Separator, StringText, Find;
    assert KeyPart(members[i].name, level, pretty) ==
           Indent(level + 1, pretty) + StringText(members[i].name) + [COLON] + (if pretty then [SPACE] else []);
  }

  // The indentation, the name and the colon of a member.
  method AppendKey(name: CString, buf: array?<byte>, at: nat, ghost start: Text, ghost done: Text, count: nat,
                   level: nat, pretty: bool) returns (total: nat)
    requires count == |done| && Room(buf, at, done + KeyPart(name, level, pretty))
    requires Written(buf, start, at, done)
    modifies buf
    ensures total == |done + KeyPart(name, level, pretty)|
    ensures Written(buf, start, at, done + KeyPart(name, level, pretty))
  {
    hide Wrote, Indent, StringText;
    ghost var indent, text := Indent(level + 1, pretty), StringText(name);
    ghost var colon := [COLON] + if pretty then [SPACE] else [];
    assert done + KeyPart(name, level, pretty) == done + indent + text + colon;
    total := AppendIndentation(buf, at, start, done, count, level + 1, pretty);
    ghost var before := Contents(buf);
    var w := SerializeString(name, buf, at + total);
    if buf != null {
      WroteTwice(start, before, buf[..], at, done + indent, text);
    }
    total := Append(buf, at, start, done + indent + text, total + w, [COLON]);
    if pretty {
      total := Append(buf, at, start, done + indent + text + [COLON], total, [SPACE]);
    }
    assert done + indent + text + colon ==
           if pretty then done + indent + text + [COLON] + [SPACE] else done + indent + text + [COLON];
  }

  // One turn of the loop over the members.
  method AppendMember(members: seq<Entry<Json>>, i: nat, buf: array?<byte>, at: nat, ghost start: Text,
                      ghost done: Text, count: nat, level: nat, pretty: bool) returns (total: nat)
    requires i < |members| && count == |done| && Room(buf, at, done + MemberPart(members, i, level, pretty))
    requires Written(buf, start, at, done)
    modifies buf
    ensures total == |done + MemberPart(members, i, level, pretty)|
    ensures Written(buf, start, at, done + MemberPart(members, i, level, pretty))
    decreases members, 0
  {
    hide Print, Separator, KeyPart, Written, Find;
    var key := members[i].name;
    var value := members[Find(members, key)].value;
    ghost var a, b := KeyPart(key, level, pretty), Print(value, level + 1, pretty);
    assert done + MemberPart(members, i, level, pretty) == done + a + b + Separator(|members| - i, pretty);
    total := AppendKey(key, buf, at, start, done, count, level, pretty);
    total := AppendEntry(value, buf, at, start, done + a, total, |members| - i, level + 1, pretty);
  }

  // The loop over the members.
  method AppendMembers(members: seq<Entry<Json>>, buf: array?<byte>, at: nat, ghost start: Text, ghost done: Text,
                       count: nat,
                     level: nat, pretty: bool) returns (total: nat)
    requires count == |done| && Room(buf, at, done + PrintMembers(members, 0, level, pretty))
    requires Written(buf, start, at, done)
    modifies buf
    ensures total == |done + PrintMembers(members, 0, level, pretty)|
    ensures Written(buf, start, at, done + PrintMembers(members, 0, level, pretty))
    decreases members, 1
  {
    hide Print, PrintMembers, Written, MemberPart;
    total := count;
    ghost var soFar := done;
    for i := 0 to |members|
      invariant done + PrintMembers(members, 0, level, pretty) == soFar + PrintMembers(members, i, level, pretty)
      invariant total == |soFar|
      invariant Written(buf, start, at, soFar)
    {
      MembersFrom(members, i, level, pretty);
      ghost var part := MemberPart(members, i, level, pretty);
      Moved(soFar, part, PrintMembers(members, i + 1, level, pretty));
      total := AppendMember(members, i, buf, at, start, soFar, total, level, pretty);
      soFar := soFar + part;
    }
    NoMembersLeft(members, level, pretty);
    assert soFar + [] == soFar;
  }

  method SerializeObject(members: seq<Entry<Json>>, buf: array?<byte>, at: nat, level: nat, pretty: bool)
    returns (written: nat)
    requires Room(buf, at, Print(Object(members), level, pretty))
    modifies buf
    ensures written == |Print(Object(members), level, pretty)|
    ensures Written(buf, old(Contents(buf)), at, Print(Object(members), level, pretty))
    ensures Terminated(buf, at + written)
    decreases members, 2
  {
    ghost var start := Contents(buf);
    ghost var open, close := Opening(LBRACE, |members|, pretty), Closing(RBRACE, |members|, level, pretty);
    ObjectParts(members, level, pretty);
    hide Print, PrintMembers, Written, Terminated, Contents, Opening, Closing;
    written := AppendOpening(LBRACE, |members|, buf, at, pretty);
    written := AppendMembers(members, buf, at, start, open, written, level, pretty);
    written := AppendClosing(RBRACE, |members|, buf, at, start, open + PrintMembers(members, 0, level, pretty), written,
                             level, pretty);
  }

  lemma NoMembersLeft(members: seq<Entry<Json>>, level: nat, pretty: bool)
    ensures PrintMembers(members, |members|, level, pretty) == []
  {
  }

  /** json_serialization_size and its pretty variant */
  method SerializationSize(v: Json, pretty: bool) returns (size: nat)
    ensures size == |Print(v, 0, pretty)| + 1
  {
    var written := SerializeToBuffer(v, null, 0, 0, pretty);
    size := written + 1;
  }

  /** json_serialize_to_buffer and its pretty variant: succeeds exactly when the caller's size is
      enough, and leaves the buffer alone otherwise. */
  method JsonSerializeToBuffer(v: Json, buf: array<byte>, size: nat, pretty: bool) returns (ok: bool)
    requires size <= buf.Length
    modifies buf
    ensures ok <==> |Print(v, 0, pretty)| + 1 <= size
    ensures !ok ==> buf[..] == old(buf[..])
    ensures ok ==> Wrote(buf[..], old(buf[..]), 0, Print(v, 0, pretty)) && buf[|Print(v, 0, pretty)|] == NUL
  {
    var needed := SerializationSize(v, pretty);
    if size < needed {
      return false;
    }
    var written := SerializeToBuffer(v, buf, 0, 0, pretty);
    ok := true;
  }

  /** json_serialize_to_string and its pretty variant: with memory available it cannot fail, and the
      buffer is exactly the text and its terminator. */
  method JsonSerializeToString(v: Json, pretty: bool) returns (buf: array?<byte>)
    ensures buf != null && fresh(buf) && buf[..] == Print(v, 0, pretty) + [NUL]
  {
    hide Print;
    var size := SerializationSize(v, pretty);
    buf := new byte[size];
    var ok := JsonSerializeToBuffer(v, buf, size, pretty);
    if !ok {
      return null;
    }
    assert buf[..] == buf[0..size - 1] + [buf[size - 1]];
  }
}
