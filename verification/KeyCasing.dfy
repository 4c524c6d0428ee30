/** Conversion between JSON keys in camel case and Ruby symbols in snake case, byte by byte and as
    loops that copy stretches (mrbgems/json-with-casing/src/symbol_key_conversion.c). */
module KeyCasing {
  import opened Bytes

  // Bit 5 is what the two cases of a letter differ in.
  function ToLower(c: byte): byte
    requires IsUpper(c)
  {
    c + 0x20
  }

  function ToUpper(c: byte): byte
    requires IsLower(c)
  {
    c - 0x20
  }

  // ---- Key to symbol, byte by byte -------------------------------------------------------------

  // What byte i of a key becomes: an upper-case letter is put into lower case, with an underscore in
  // front if it has neighbours on both sides and one of them is a lower-case letter.
  function SymbolPart(key: Text, i: nat): Text
    requires i < |key|
  {
    var c := key[i];
    if !IsUpper(c) then [c]
    else if 0 < i < |key| - 1 && (IsLower(key[i - 1]) || IsLower(key[i + 1])) then [UNDERSCORE, ToLower(c)]
    else [ToLower(c)]
  }

  function SymbolFrom(key: Text, i: nat): Text
    requires i <= |key|
    decreases |key| - i
  {
    if i == |key| then [] else SymbolPart(key, i) + SymbolFrom(key, i + 1)
  }

  function KeyToSymbol(key: Text): Text {
    SymbolFrom(key, 0)
  }

  lemma PlainByteOfKey(key: Text, i: nat)
    requires i < |key| && !IsUpper(key[i])
    ensures SymbolFrom(key, i) == [key[i]] + SymbolFrom(key, i + 1)
  {
  }

  lemma {:induction false} PlainRunOfKey(key: Text, i: nat, j: nat)
    requires i <= j <= |key| && forall k | i <= k < j :: !IsUpper(key[k])
    ensures SymbolFrom(key, i) == key[i..j] + SymbolFrom(key, j)
    decreases j - i
  {
    hide SymbolFrom;
    if i < j {
      PlainByteOfKey(key, i);
      PlainRunOfKey(key, i + 1, j);
      assert key[i..j] == [key[i]] + key[i + 1..j];
    } else {
      assert key[i..j] == [];
    }
  }

  /** json_key_to_ruby_symbol: runs without an upper-case letter are copied in one piece. */
  method JsonKeyToRubySymbol(key: CString) returns (symbol: Text)
    ensures symbol == KeyToSymbol(key)
  {
    hide SymbolFrom;
    symbol := [];
    var flushed := 0;
    for index := 0 to |key|
      invariant 0 <= flushed <= index
      invariant forall k | flushed <= k < index :: !IsUpper(key[k])
      invariant symbol + SymbolFrom(key, flushed) == KeyToSymbol(key)
    {
      var c := key[index];
      if IsUpper(c) {
        ghost var before, run := symbol, key[flushed..index];
        PlainRunOfKey(key, flushed, index);
        SymbolStep(key, index);
        symbol := symbol + key[flushed..index];
        var separate := false;
        if index > 0 && index < |key| - 1 {
          separate := IsLower(key[index - 1]) || IsLower(key[index + 1]);
        }
        if separate {
          symbol := symbol + [UNDERSCORE];
        }
        symbol := symbol + [ToLower(c)];
        assert symbol == before + run + SymbolPart(key, index);
        Regroup(before, run, SymbolPart(key, index), SymbolFrom(key, index + 1));
        flushed := index + 1;
      }
    }
    PlainRunOfKey(key, flushed, |key|);
    NothingLeft(key);
    symbol := symbol + key[flushed..];
  }

  lemma SymbolStep(key: Text, i: nat)
    requires i < |key|
    ensures SymbolFrom(key, i) == SymbolPart(key, i) + SymbolFrom(key, i + 1)
  {
  }

  lemma Regroup(a: Text, b: Text, c: Text, d: Text)
    ensures a + (b + (c + d)) == a + b + c + d
  {
  }

  lemma NothingLeft(t: Text)
    ensures SymbolFrom(t, |t|) == [] && KeyFrom(t, |t|) == []
  {
  }

  // ---- Symbol to key, byte by byte -------------------------------------------------------------

  // An underscore between two lower-case letters.
  predicate Hump(s: Text, i: int) {
    0 < i < |s| - 1 && s[i] == UNDERSCORE && IsLower(s[i - 1]) && IsLower(s[i + 1])
  }

  // What byte i of a symbol becomes: humps vanish and the letter behind one is put into upper case.
  function KeyPart(s: Text, i: nat): Text
    requires i < |s|
  {
    if Hump(s, i) then [] else if Hump(s, i - 1) then [ToUpper(s[i])] else [s[i]]
  }

  function KeyFrom(s: Text, i: nat): Text
    requires i <= |s|
    decreases |s| - i
  {
    if i == |s| then [] else KeyPart(s, i) + KeyFrom(s, i + 1)
  }

  function SymbolToKey(s: Text): Text {
    KeyFrom(s, 0)
  }

  lemma PlainByteOfSymbol(s: Text, i: nat)
    requires i < |s| && !Hump(s, i) && !Hump(s, i - 1)
    ensures KeyFrom(s, i) == [s[i]] + KeyFrom(s, i + 1)
  {
  }

  lemma {:induction false} PlainRunOfSymbol(s: Text, i: nat, j: nat)
    requires i <= j <= |s| && forall k | i - 1 <= k < j :: !Hump(s, k)
    ensures KeyFrom(s, i) == s[i..j] + KeyFrom(s, j)
    decreases j - i
  {
    hide KeyFrom, Hump;
    if i < j {
      PlainByteOfSymbol(s, i);
      PlainRunOfSymbol(s, i + 1, j);
      assert s[i..j] == [s[i]] + s[i + 1..j];
    } else {
      assert s[i..j] == [];
    }
  }

  lemma HumpStep(s: Text, i: nat)
    requires Hump(s, i)
    ensures KeyFrom(s, i) == [ToUpper(s[i + 1])] + KeyFrom(s, i + 2)
    ensures !Hump(s, i + 1) && i + 2 <= |s|
  {
  }

  /** ruby_symbol_to_json_key: the quoted key, copied in pieces between humps. */
  method RubySymbolToJsonKey(s: Text) returns (key: Text)
    ensures key == [QUOTE] + SymbolToKey(s) + [QUOTE]
  {
    hide KeyFrom;
    key := [QUOTE];
    var flushed := 0;
    var index := 1;
    while index < |s| - 1
      invariant 1 <= index && 0 <= flushed <= index + 1 && flushed <= |s|
      invariant flushed == index + 1 ==> IsLower(s[index])
      invariant forall k | flushed - 1 <= k < index :: !Hump(s, k)
      invariant key + KeyFrom(s, flushed) == [QUOTE] + SymbolToKey(s)
    {
      var next := s[index + 1];
      if s[index] == UNDERSCORE && IsLower(s[index - 1]) && IsLower(next) {
        ghost var before, run := key, s[flushed..index];
        PlainRunOfSymbol(s, flushed, index);
        HumpStep(s, index);
        key := key + s[flushed..index];
        key := key + [ToUpper(next)];
        Regroup(before, run, [ToUpper(next)], KeyFrom(s, index + 2));
        flushed := index + 2;
      }
      index := index + 1;
    }
    NothingLeft(s);
    if flushed < |s| {
      PlainRunOfSymbol(s, flushed, |s|);
      key := key + s[flushed..];
    }
    assert key + [] == key;
    key := key + [QUOTE];
  }

  // ---- What the conversions do, byte for byte --------------------------------------------------

  predicate Small(c: byte) {
    'a' as int <= c <= 'z' as int
  }

  // A capital letter inside the key with a small letter on either side.
  predicate Parted(key: Text, i: int) {
    0 < i < |key| - 1 && 'A' as int <= key[i] <= 'Z' as int && (Small(key[i - 1]) || Small(key[i + 1]))
  }

  // How many of the first i bytes of a key get an underscore in front.
  function Parts(key: Text, i: nat): nat
    requires i <= |key|
  {
    if i == 0 then 0 else Parts(key, i - 1) + if Parted(key, i - 1) then 1 else 0
  }

  lemma SymbolPartIs(key: Text, i: nat)
    requires i < |key|
    ensures SymbolPart(key, i) ==
            (if Parted(key, i) then ['_' as int] else []) +
            [if 'A' as int <= key[i] <= 'Z' as int then key[i] + 32 else key[i]]
  {
  }

  lemma {:induction false} PartsGrow(key: Text, i: nat, j: nat)
    requires i <= j <= |key|
    ensures Parts(key, i) <= Parts(key, j)
    decreases j
  {
    if i < j {
      PartsGrow(key, i, j - 1);
    }
  }

  lemma {:induction false} SymbolFromIs(key: Text, i: nat, j: nat)
    requires i <= j <= |key|
    ensures |SymbolFrom(key, i)| == |key| - i + Parts(key, |key|) - Parts(key, i)
    ensures j < |key| ==>
              var p := j - i + Parts(key, j + 1) - Parts(key, i);
              0 <= p < |SymbolFrom(key, i)| && SymbolFrom(key, i)[p] ==
              if 'A' as int <= key[j] <= 'Z' as int then key[j] + 32 else key[j]
    ensures Parted(key, j) ==>
              var p := j - i + Parts(key, j) - Parts(key, i);
              0 <= p < |SymbolFrom(key, i)| && SymbolFrom(key, i)[p] == '_' as int
    decreases |key| - i
  {
    hide SymbolPart, SymbolFrom;
    PartsGrow(key, i, j);
    if i == |key| {
      NothingLeft(key);
    } else {
      SymbolStep(key, i);
      SymbolPartIs(key, i);
      SymbolFromIs(key, i + 1, if j > i then j else i + 1);
      if j > i {
        PartsGrow(key, i + 1, j);
      } else {
        PartsGrow(key, i + 1, |key|);
      }
    }
  }

  /** Each byte of a key becomes one byte of the symbol, capitals in lower case; behind as many
      underscores as there are parted capitals up to it; and there are no others. */
  lemma {:induction false} SymbolIsExact(key: Text, j: nat)
    requires j < |key|
    ensures |KeyToSymbol(key)| == |key| + Parts(key, |key|)
    ensures var p := j + Parts(key, j + 1);
            p < |KeyToSymbol(key)| &&
            KeyToSymbol(key)[p] == if 'A' as int <= key[j] <= 'Z' as int then key[j] + 32 else key[j]
    ensures Parted(key, j) ==> KeyToSymbol(key)[j + Parts(key, j)] == '_' as int
  {
    SymbolFromIs(key, 0, j);
  }

  // An underscore between two small letters.
  predicate Inner(s: Text, i: int) {
    0 < i < |s| - 1 && s[i] == '_' as int && Small(s[i - 1]) && Small(s[i + 1])
  }

  // How many of the first i bytes of a symbol vanish.
  function Joints(s: Text, i: nat): (n: nat)
    requires i <= |s|
    ensures n <= i
  {
    if i == 0 then 0 else Joints(s, i - 1) + if Inner(s, i - 1) then 1 else 0
  }

  lemma {:induction false} JointsGrow(s: Text, i: nat, j: nat)
    requires i <= j <= |s|
    ensures 0 <= Joints(s, j) - Joints(s, i) <= j - i
    decreases j
  {
    if i < j {
      JointsGrow(s, i, j - 1);
    }
  }

  lemma KeyPartIs(s: Text, i: nat)
    requires i < |s|
    ensures KeyPart(s, i) == if Inner(s, i) then [] else [if Inner(s, i - 1) then s[i] - 32 else s[i]]
  {
  }

  lemma KeyStep(s: Text, i: nat)
    requires i < |s|
    ensures KeyFrom(s, i) == KeyPart(s, i) + KeyFrom(s, i + 1)
  {
  }

  lemma {:induction false} KeyFromIs(s: Text, i: nat, j: nat)
    requires i <= j <= |s|
    ensures |KeyFrom(s, i)| == |s| - i - (Joints(s, |s|) - Joints(s, i))
    ensures j < |s| && !Inner(s, j) ==>
              var p := j - i - (Joints(s, j) - Joints(s, i));
              0 <= p < |KeyFrom(s, i)| && KeyFrom(s, i)[p] == if Inner(s, j - 1) then s[j] - 32 else s[j]
    decreases |s| - i
  {
    hide KeyPart, KeyFrom;
    JointsGrow(s, i, j);
    if i == |s| {
      NothingLeft(s);
    } else {
      KeyStep(s, i);
      KeyPartIs(s, i);
      KeyFromIs(s, i + 1, if j > i then j else i + 1);
      if j > i {
        JointsGrow(s, i + 1, j);
      }
    }
  }

  /** Each byte of a symbol becomes one byte of the key, in upper case behind an underscore between
      small letters; exactly these underscores vanish. */
  lemma {:induction false} KeyIsExact(s: Text, j: nat)
    requires j < |s|
    ensures |SymbolToKey(s)| == |s| - Joints(s, |s|)
    ensures !Inner(s, j) ==>
              j - Joints(s, j) < |SymbolToKey(s)| &&
              SymbolToKey(s)[j - Joints(s, j)] == if Inner(s, j - 1) then s[j] - 32 else s[j]
  {
    KeyFromIs(s, 0, j);
  }

  // ---- Which symbols survive the round trip ----------------------------------------------------

  predicate NoUpper(s: Text) {
    forall i | 0 <= i < |s| :: !IsUpper(s[i])
  }

  // The conversion back puts an underscore where the hump at i was: the letter behind it is not the
  // last byte, and one of its neighbours in the key is a lower-case letter.
  predicate Kept(s: Text, i: int)
    requires Hump(s, i)
  {
    i + 1 < |s| - 1 && (!Hump(s, i - 2) || IsLower(s[i + 2]))
  }

  ghost predicate Invertible(s: Text) {
    forall i :: Hump(s, i) ==> Kept(s, i)
  }

  function KeyTo(s: Text, i: nat): Text
    requires i <= |s|
  {
    if i == 0 then [] else KeyTo(s, i - 1) + KeyPart(s, i - 1)
  }

  lemma {:induction false} KeySplits(s: Text, i: nat)
    requires i <= |s|
    ensures SymbolToKey(s) == KeyTo(s, i) + KeyFrom(s, i)
  {
    hide KeyPart;
    if i > 0 {
      KeySplits(s, i - 1);
      assert KeyTo(s, i - 1) + (KeyPart(s, i - 1) + KeyFrom(s, i)) ==
             (KeyTo(s, i - 1) + KeyPart(s, i - 1)) + KeyFrom(s, i);
    }
  }

  // What the two conversions together make of byte i of a symbol.
  function RoundPart(s: Text, i: nat): Text
    requires i < |s|
  {
    if Hump(s, i) then []
    else if Hump(s, i - 1) && Kept(s, i - 1) then [UNDERSCORE, s[i]]
    else [s[i]]
  }

  function RoundFrom(s: Text, i: nat): Text
    requires i <= |s|
    decreases |s| - i
  {
    if i == |s| then [] else RoundPart(s, i) + RoundFrom(s, i + 1)
  }

  // The first byte of the key from i on.
  lemma KeyHead(s: Text, i: nat)
    requires i < |s| && !Hump(s, i - 1)
    ensures KeyFrom(s, i) != []
    ensures IsLower(KeyFrom(s, i)[0]) <==> IsLower(s[i])
  {
    if Hump(s, i) {
      HumpStep(s, i);
    }
  }

  // The last byte of the key in front of the hump at i.
  lemma KeyLast(s: Text, i: nat)
    requires Hump(s, i)
    ensures var t := KeyTo(s, i); t != [] && (IsLower(t[|t| - 1]) <==> !Hump(s, i - 2))
  {
    assert !Hump(s, i - 1);
    assert KeyTo(s, i) == KeyTo(s, i - 1) + KeyPart(s, i - 1);
  }

  // The key around the letter that stands for the hump at h.
  lemma KeyAroundHump(s: Text, h: nat)
    requires Hump(s, h)
    ensures var key, k := SymbolToKey(s), |KeyTo(s, h)|;
            && 0 < k < |key| && key[k] == ToUpper(s[h + 1])
            && (IsLower(key[k - 1]) <==> !Hump(s, h - 2))
            && (k < |key| - 1 <==> h + 1 < |s| - 1)
            && (k < |key| - 1 ==> (IsLower(key[k + 1]) <==> IsLower(s[h + 2])))
  {
    hide KeyTo, SymbolToKey, KeyFrom;
    KeySplits(s, h);
    KeyLast(s, h);
    HumpStep(s, h);
    if h + 2 < |s| {
      KeyHead(s, h + 2);
    } else {
      NothingLeft(s);
    }
  }

  lemma PartOfKey(s: Text, i: nat)
    requires i < |s| && NoUpper(s) && !Hump(s, i)
    ensures var key, k := SymbolToKey(s), |KeyTo(s, i)|;
            k < |key| && SymbolPart(key, k) == RoundPart(s, i)
  {
    hide KeyTo, SymbolToKey, KeyFrom;
    if Hump(s, i - 1) {
      KeyToAfterHump(s, i - 1);
      KeyAroundHump(s, i - 1);
      CasesInverse(s[i]);
    } else {
      KeySplits(s, i);
      PlainByteOfSymbol(s, i);
    }
  }

  lemma CasesInverse(c: byte)
    requires IsLower(c)
    ensures IsUpper(ToUpper(c)) && ToLower(ToUpper(c)) == c
  {
  }

  lemma KeyToAfterHump(s: Text, i: nat)
    requires Hump(s, i)
    ensures KeyTo(s, i + 1) == KeyTo(s, i)
  {
  }

  lemma {:induction false} SymbolOfKey(s: Text, i: nat)
    requires i <= |s| && NoUpper(s)
    ensures |KeyTo(s, i)| <= |SymbolToKey(s)|
    ensures SymbolFrom(SymbolToKey(s), |KeyTo(s, i)|) == RoundFrom(s, i)
    decreases |s| - i
  {
    hide SymbolPart, RoundPart, SymbolFrom, RoundFrom, KeyFrom, KeyTo, SymbolToKey, Hump;
    var key, k := SymbolToKey(s), |KeyTo(s, i)|;
    KeySplits(s, i);
    if i == |s| {
      NothingLeft(s);
      NothingLeft(key);
      NoRoundLeft(s);
    } else {
      SymbolOfKey(s, i + 1);
      RoundStep(s, i);
      if Hump(s, i) {
        KeyToAfterHump(s, i);
      } else {
        PartOfKey(s, i);
        KeyToAfterByte(s, i);
        SymbolStep(key, k);
      }
    }
  }

  lemma NoRoundLeft(s: Text)
    ensures RoundFrom(s, |s|) == []
  {
  }

  lemma RoundStep(s: Text, i: nat)
    requires i < |s|
    ensures RoundFrom(s, i) == RoundPart(s, i) + RoundFrom(s, i + 1)
    ensures Hump(s, i) ==> RoundFrom(s, i) == RoundFrom(s, i + 1)
  {
  }

  lemma KeyToAfterByte(s: Text, i: nat)
    requires i < |s| && !Hump(s, i)
    ensures |KeyTo(s, i + 1)| == |KeyTo(s, i)| + 1
  {
  }

  lemma {:induction false} RoundWhenKept(s: Text, i: nat)
    requires i <= |s| && Invertible(s)
    ensures RoundFrom(s, i) == (if Hump(s, i - 1) then [UNDERSCORE] else []) + s[i..]
    decreases |s| - i
  {
    if i < |s| {
      RoundWhenKept(s, i + 1);
      assert s[i..] == [s[i]] + s[i + 1..];
    }
  }

  lemma RoundPartLength(s: Text, i: nat)
    requires i < |s|
    ensures Hump(s, i) ==> RoundPart(s, i) == [] && !Hump(s, i - 1)
    ensures !Hump(s, i) ==> |RoundPart(s, i)| == if Hump(s, i - 1) && Kept(s, i - 1) then 2 else 1
  {
  }

  lemma {:induction false} RoundLength(s: Text, i: nat, bad: int)
    requires i <= |s| && Hump(s, bad) && !Kept(s, bad)
    ensures |RoundFrom(s, i)| <= |s| - i + if Hump(s, i - 1) then 1 else 0
    ensures i - 1 <= bad ==> |RoundFrom(s, i)| < |s| - i + if Hump(s, i - 1) then 1 else 0
    decreases |s| - i
  {
    HumpInside(s, bad);
    hide Hump, Kept, RoundPart, RoundFrom;
    if i < |s| {
      RoundPartLength(s, i);
      RoundStep(s, i);
      RoundLength(s, i + 1, bad);
    } else {
      NoRoundLeft(s);
    }
  }

  lemma HumpInside(s: Text, i: int)
    requires Hump(s, i)
    ensures 0 < i < |s| - 1
  {
  }

  // No key becomes a symbol with an upper-case letter.
  lemma {:induction false} SymbolHasNoUpper(key: Text, i: nat)
    requires i <= |key|
    ensures NoUpper(SymbolFrom(key, i))
    decreases |key| - i
  {
    hide SymbolFrom;
    if i < |key| {
      SymbolHasNoUpper(key, i + 1);
      SymbolStep(key, i);
    } else {
      NothingLeft(key);
    }
  }

  /** A symbol comes back unchanged from its key exactly when it has no upper-case letter and every
      hump in it is kept. */
  lemma {:induction false} RoundTripIffInvertible(s: Text)
    ensures KeyToSymbol(SymbolToKey(s)) == s <==> NoUpper(s) && Invertible(s)
  {
    hide SymbolToKey, SymbolFrom, RoundFrom, NoUpper;
    SymbolHasNoUpper(SymbolToKey(s), 0);
    if NoUpper(s) {
      SymbolOfKey(s, 0);
      if Invertible(s) {
        RoundWhenKept(s, 0);
      } else {
        var bad :| Hump(s, bad) && !Kept(s, bad);
        RoundLength(s, 0, bad);
      }
    }
  }

  /** Invertible symbols never collide as keys. */
  lemma {:induction false} KeysAreDistinct(a: Text, b: Text)
    requires NoUpper(a) && NoUpper(b) && Invertible(a) && Invertible(b)
    requires SymbolToKey(a) == SymbolToKey(b)
    ensures a == b
  {
    RoundTripIffInvertible(a);
    RoundTripIffInvertible(b);
  }
}
