/** Which texts the JSON reader of crow/json.h accepts, and as what: the grammar of RFC 8259 on positions of a
    text, with its strings and numbers as JsonText has them. The reader accepts exactly these texts, up to its
    depth, with the value that they are the text of. */
module JsonGrammar {
  import opened Sequences
  import opened Json
  import opened JsonText

  // ---------------------------------------------------------------- the grammar

  predicate Spaces(s: string, i: nat, j: nat) {
    i <= j <= |s| && forall k :: i <= k < j ==> IsSpace(s[k])
  }

  predicate CharAt(s: string, i: nat, c: char) {
    i < |s| && s[i] == c
  }

  predicate IsWord(s: string, i: nat, w: string, e: nat) {
    i <= e <= |s| && s[i..e] == w
  }

  ghost predicate IsNumber(s: string, i: nat, t: string, e: nat) {
    i <= e <= |s| && s[i..e] == t && Ends(s, e) && exists n :: Tolerated(n) && t == NumeralText(n)
  }

  ghost predicate IsString(s: string, i: nat, bytes: string, e: nat) {
    CharAt(s, i, '"') && e > 0 && Inside(s, i + 1, bytes, e - 1) && CharAt(s, e - 1, '"')
  }

  /** The text of s from i to e is the value v. */
  ghost predicate IsValue(s: string, i: nat, v: Value, e: nat)
    decreases v, 0
  {
    match v
    case Null => IsWord(s, i, "null", e)
    case False => IsWord(s, i, "false", e)
    case True => IsWord(s, i, "true", e)
    case Number(_) => IsNumber(s, i, v.text, e)
    case Str(_) => IsString(s, i, v.s, e)
    case List(items) =>
      CharAt(s, i, '[') &&
      exists j: nat :: Spaces(s, i + 1, j) &&
        if items == [] then CharAt(s, j, ']') && e == j + 1 else IsItems(s, j, items, e)
    case Object(ms) =>
      CharAt(s, i, '{') &&
      exists j: nat :: Spaces(s, i + 1, j) &&
        if ms == [] then CharAt(s, j, '}') && e == j + 1 else IsMembers(s, j, ms, e)
  }

  /** Values with commas between them, and the closing bracket. */
  ghost predicate IsItems(s: string, i: nat, items: seq<Value>, e: nat)
    requires items != []
    decreases items, 2
  {
    exists p: nat, j: nat, k: nat :: IsItemsVia(s, i, items, e, p, j, k)
  }

  /** The first one ends at p, the character behind it stands at j, and the others start at k. */
  ghost predicate IsItemsVia(s: string, i: nat, items: seq<Value>, e: nat, p: nat, j: nat, k: nat)
    requires items != []
    decreases items, 1
  {
    IsValue(s, i, items[0], p) && Spaces(s, p, j) && Spaces(s, j + 1, k) &&
    if |items| == 1 then CharAt(s, j, ']') && e == k == j + 1
    else CharAt(s, j, ',') && IsItems(s, k, items[1..], e)
  }

  ghost predicate IsMember(s: string, i: nat, m: Member, e: nat)
    decreases m, 1
  {
    exists p: nat, j: nat, k: nat ::
      IsString(s, i, m.key, p) && Spaces(s, p, j) && CharAt(s, j, ':') && Spaces(s, j + 1, k) &&
      IsValue(s, k, m.value, e)
  }

  ghost predicate IsMembers(s: string, i: nat, ms: seq<Member>, e: nat)
    requires ms != []
    decreases ms, 3
  {
    exists p: nat, j: nat, k: nat :: IsMembersVia(s, i, ms, e, p, j, k)
  }

  /** The first one ends at p, the character behind it stands at j, and the others start at k. */
  ghost predicate IsMembersVia(s: string, i: nat, ms: seq<Member>, e: nat, p: nat, j: nat, k: nat)
    requires ms != []
    decreases ms, 2
  {
    IsMember(s, i, ms[0], p) && Spaces(s, p, j) && Spaces(s, j + 1, k) &&
    if |ms| == 1 then CharAt(s, j, '}') && e == k == j + 1
    else CharAt(s, j, ',') && IsMembers(s, k, ms[1..], e)
  }

  /** A value with space around it, up to the end of the text or a NUL. */
  ghost predicate IsText(s: string, v: Value) {
    exists i: nat, e: nat, j: nat ::
      Spaces(s, 0, i) && IsValue(s, i, v, e) && Spaces(s, e, j) && (j == |s| || CharAt(s, j, '\0'))
  }

  // ---------------------------------------------------------------- how values start

  lemma NumeralStarts(n: Numeral)
    requires Shaped(n)
    ensures var t := NumeralText(n); t != "" && (IsDigit(t[0]) || t[0] == '-')
  {
    var tail := FractionText(n.fraction) + ExponentText(n.exponent);
    var t := MinusText(n.minus) + (n.whole + tail);
    assert t == NumeralText(n);
    assert t[0] == if n.minus then '-' else n.whole[0];
  }

  lemma NumberStarts(s: string, i: nat, t: string, e: nat)
    requires IsNumber(s, i, t, e)
    ensures i < e && (IsDigit(s[i]) || s[i] == '-')
  {
    hide NumeralText;
    var n :| Tolerated(n) && t == NumeralText(n);
    NumeralStarts(n);
    assert s[i..e][0] == s[i];
  }

  lemma ValueStarts(s: string, i: nat, v: Value, e: nat)
    requires IsValue(s, i, v, e)
    ensures i < |s| && Starts(s[i])
  {
    match v
    case Number(_) => NumberStarts(s, i, v.text, e);
    case Null => assert s[i..e][0] == s[i];
    case False => assert s[i..e][0] == s[i];
    case True => assert s[i..e][0] == s[i];
    case _ =>
  }

  // ---------------------------------------------------------------- what is a text is read

  lemma SpacesSkipped(s: string, i: nat, j: nat)
    requires Spaces(s, i, j) && !IsSpace(Peek(s, j))
    ensures SkipSpace(s, i) == j
  {
    SkipSpaceIs(s, i, j);
  }

  lemma StringRead(s: string, i: nat, bytes: string, e: nat)
    requires IsString(s, i, bytes, e)
    ensures i < |s| && ParseString(s, i) == Ok(bytes, e)
  {
    StringExactly(s, i + 1, bytes, e - 1);
  }

  lemma NumberRead(s: string, i: nat, t: string, e: nat, depth: nat)
    requires IsNumber(s, i, t, e)
    ensures i < |s| && ParseValue(s, i, depth) == Ok(Number(t), e)
  {
    hide ParseValue, Tolerated, NumeralText;
    NumberStarts(s, i, t, e);
    NumberExactly(s, i, e);
    NumberRule(s, i, depth);
  }

  lemma StrRule(s: string, i: nat, depth: nat)
    requires CharAt(s, i, '"')
    ensures ParseValue(s, i, depth) ==
            match ParseString(s, i) case Fail => Fail case Ok(t, pos) => Ok(Str(t), pos)
  {
  }

  lemma ScalarRead(s: string, i: nat, v: Value, e: nat, depth: nat)
    requires IsValue(s, i, v, e) && !v.List? && !v.Object?
    ensures i < |s| && ParseValue(s, i, depth) == Ok(v, e)
  {
    hide ParseValue, ParseString;
    ValueStarts(s, i, v, e);
    SliceStands(s, i, e);
    match v
    case Null => ValueIsNull(s, i, depth);
    case False => ValueIsFalse(s, i, depth);
    case True => ValueIsTrue(s, i, depth);
    case Number(_) => NumberRead(s, i, v.text, e, depth);
    case Str(_) =>
      StringRead(s, i, v.s, e);
      StrRule(s, i, depth);
  }

  lemma EmptyList(s: string, i: nat, j: nat, depth: nat)
    requires CharAt(s, i, '[') && Spaces(s, i + 1, j) && CharAt(s, j, ']')
    ensures ParseValue(s, i, depth) == if Fits(List([]), depth) then Ok(List([]), j + 1) else Fail
  {
    SpacesSkipped(s, i + 1, j);
    ValueIsList(s, i, depth);
  }

  lemma FullList(s: string, i: nat, j: nat, depth: nat, items: seq<Value>, e: nat)
    requires CharAt(s, i, '[') && Spaces(s, i + 1, j) && j < |s| && Starts(s[j])
    requires depth < MAX_DEPTH ==>
               ParseItems(s, j, depth + 1) == if AllFit(items, depth + 2) then Ok(items, e) else Fail
    ensures ParseValue(s, i, depth) == if Fits(List(items), depth) then Ok(List(items), e) else Fail
  {
    hide ParseItems, ParseValue;
    SpacesSkipped(s, i + 1, j);
    ValueIsList(s, i, depth);
  }

  lemma {:induction false} ValueRead(s: string, i: nat, v: Value, e: nat, depth: nat)
    requires IsValue(s, i, v, e)
    ensures i < |s| && ParseValue(s, i, depth) == if Fits(v, depth) then Ok(v, e) else Fail
    decreases v, 0
  {
    hide ParseValue, ParseItems, ParseMembers, IsItems, IsMembers, Fits;
    ValueStarts(s, i, v, e);
    match v
    case List(items) =>
      var j: nat :| Spaces(s, i + 1, j) &&
        if items == [] then CharAt(s, j, ']') && e == j + 1 else IsItems(s, j, items, e);
      if items == [] {
        EmptyList(s, i, j, depth);
      } else {
        ItemsRead(s, j, items, e, depth + 1);
        FullList(s, i, j, depth, items, e);
      }
    case Object(ms) =>
      var j: nat :| Spaces(s, i + 1, j) &&
        if ms == [] then CharAt(s, j, '}') && e == j + 1 else IsMembers(s, j, ms, e);
      if ms == [] {
        EmptyObject(s, i, j, depth);
      } else {
        MembersRead(s, j, ms, e, depth + 1);
        FullObject(s, i, j, depth, ms, e);
      }
    case _ =>
      ScalarRead(s, i, v, e, depth);
      ScalarFits(v, depth);
  }

  lemma ScalarFits(v: Value, depth: nat)
    requires !v.List? && !v.Object?
    ensures Fits(v, depth)
  {
  }

  lemma ItemsSplit(s: string, i: nat, items: seq<Value>, e: nat) returns (p: nat, j: nat, k: nat)
    requires items != [] && IsItems(s, i, items, e)
    ensures IsValue(s, i, items[0], p) && Spaces(s, p, j) && Spaces(s, j + 1, k)
    ensures if |items| == 1 then CharAt(s, j, ']') && e == k == j + 1
            else CharAt(s, j, ',') && IsItems(s, k, items[1..], e)
  {
    p, j, k :| IsItemsVia(s, i, items, e, p, j, k);
  }

  lemma ItemsLast(s: string, i: nat, items: seq<Value>, p: nat, j: nat, depth: nat)
    requires i <= |s| && |items| == 1 && Spaces(s, p, j) && CharAt(s, j, ']')
    requires ParseValue(s, i, depth + 1) == if Fits(items[0], depth + 1) then Ok(items[0], p) else Fail
    ensures ParseItems(s, i, depth) == if AllFit(items, depth + 1) then Ok(items, j + 1) else Fail
  {
    hide Fits, ParseValue, ParseMember;
    SpacesSkipped(s, p, j);
    assert items == [items[0]];
  }

  lemma ItemsMore(s: string, i: nat, items: seq<Value>, p: nat, j: nat, k: nat, e: nat, depth: nat)
    requires i <= |s| && |items| > 1 && Spaces(s, p, j) && CharAt(s, j, ',')
    requires Spaces(s, j + 1, k) && !IsSpace(Peek(s, k))
    requires ParseValue(s, i, depth + 1) == if Fits(items[0], depth + 1) then Ok(items[0], p) else Fail
    requires ParseItems(s, k, depth) == if AllFit(items[1..], depth + 1) then Ok(items[1..], e) else Fail
    ensures ParseItems(s, i, depth) == if AllFit(items, depth + 1) then Ok(items, e) else Fail
  {
    hide Fits, AllFit, ParseValue, ParseMember;
    SpacesSkipped(s, p, j);
    SpacesSkipped(s, j + 1, k);
    AllFitCons(items, depth + 1);
    assert items == [items[0]] + items[1..];
  }

  lemma {:induction false} ItemsRead(s: string, i: nat, items: seq<Value>, e: nat, depth: nat)
    requires items != [] && IsItems(s, i, items, e)
    ensures i < |s| && Starts(s[i])
    ensures ParseItems(s, i, depth) == if AllFit(items, depth + 1) then Ok(items, e) else Fail
    decreases items, 1
  {
    hide ParseValue, ParseItems, Fits, AllFit;
    var p, j, k := ItemsSplit(s, i, items, e);
    ValueStarts(s, i, items[0], p);
    ValueRead(s, i, items[0], p, depth + 1);
    if |items| > 1 {
      ItemsRead(s, k, items[1..], e, depth);
      ItemsMore(s, i, items, p, j, k, e, depth);
    } else {
      ItemsLast(s, i, items, p, j, depth);
    }
  }

  // ---- objects

  lemma EmptyObject(s: string, i: nat, j: nat, depth: nat)
    requires CharAt(s, i, '{') && Spaces(s, i + 1, j) && CharAt(s, j, '}')
    ensures ParseValue(s, i, depth) == if Fits(Object([]), depth) then Ok(Object([]), j + 1) else Fail
  {
    SpacesSkipped(s, i + 1, j);
    ValueIsObject(s, i, depth);
  }

  lemma FullObject(s: string, i: nat, j: nat, depth: nat, ms: seq<Member>, e: nat)
    requires CharAt(s, i, '{') && Spaces(s, i + 1, j) && CharAt(s, j, '"')
    requires depth < MAX_DEPTH ==>
               ParseMembers(s, j, depth + 1) == if AllMembersFit(ms, depth + 2) then Ok(ms, e) else Fail
    ensures ParseValue(s, i, depth) == if Fits(Object(ms), depth) then Ok(Object(ms), e) else Fail
  {
    hide ParseMembers, ParseValue;
    SpacesSkipped(s, i + 1, j);
    ValueIsObject(s, i, depth);
  }

  lemma {:induction false} MemberRead(s: string, i: nat, m: Member, e: nat, depth: nat)
    requires IsMember(s, i, m, e)
    ensures CharAt(s, i, '"')
    ensures ParseMember(s, i, depth) == if Fits(m.value, depth + 1) then Ok(m, e) else Fail
    decreases m, 1
  {
    hide ParseValue, ParseString, Fits, IsValue;
    var p: nat, j: nat, k: nat :|
      IsString(s, i, m.key, p) && Spaces(s, p, j) && CharAt(s, j, ':') && Spaces(s, j + 1, k) &&
      IsValue(s, k, m.value, e);
    StringRead(s, i, m.key, p);
    SpacesSkipped(s, p, j);
    ValueStarts(s, k, m.value, e);
    SpacesSkipped(s, j + 1, k);
    ValueRead(s, k, m.value, e, depth + 1);
  }

  lemma MembersSplit(s: string, i: nat, ms: seq<Member>, e: nat) returns (p: nat, j: nat, k: nat)
    requires ms != [] && IsMembers(s, i, ms, e)
    ensures IsMember(s, i, ms[0], p) && Spaces(s, p, j) && Spaces(s, j + 1, k)
    ensures if |ms| == 1 then CharAt(s, j, '}') && e == k == j + 1
            else CharAt(s, j, ',') && IsMembers(s, k, ms[1..], e)
  {
    p, j, k :| IsMembersVia(s, i, ms, e, p, j, k);
  }

  lemma MembersLast(s: string, i: nat, ms: seq<Member>, p: nat, j: nat, depth: nat)
    requires i <= |s| && |ms| == 1 && Spaces(s, p, j) && CharAt(s, j, '}')
    requires ParseMember(s, i, depth) == if Fits(ms[0].value, depth + 1) then Ok(ms[0], p) else Fail
    ensures ParseMembers(s, i, depth) == if AllMembersFit(ms, depth + 1) then Ok(ms, j + 1) else Fail
  {
    hide Fits, ParseValue, ParseMember;
    SpacesSkipped(s, p, j);
    assert ms == [ms[0]];
  }

  lemma MembersMore(s: string, i: nat, ms: seq<Member>, p: nat, j: nat, k: nat, e: nat, depth: nat)
    requires i <= |s| && |ms| > 1 && Spaces(s, p, j) && CharAt(s, j, ',') && Spaces(s, j + 1, k) && !IsSpace(Peek(s, k))
    requires ParseMember(s, i, depth) == if Fits(ms[0].value, depth + 1) then Ok(ms[0], p) else Fail
    requires ParseMembers(s, k, depth) == if AllMembersFit(ms[1..], depth + 1) then Ok(ms[1..], e) else Fail
    ensures ParseMembers(s, i, depth) == if AllMembersFit(ms, depth + 1) then Ok(ms, e) else Fail
  {
    hide Fits, AllMembersFit, ParseValue, ParseMember;
    SpacesSkipped(s, p, j);
    SpacesSkipped(s, j + 1, k);
    AllMembersFitCons(ms, depth + 1);
    assert ms == [ms[0]] + ms[1..];
  }

  lemma {:induction false} MembersRead(s: string, i: nat, ms: seq<Member>, e: nat, depth: nat)
    requires ms != [] && IsMembers(s, i, ms, e)
    ensures CharAt(s, i, '"')
    ensures ParseMembers(s, i, depth) == if AllMembersFit(ms, depth + 1) then Ok(ms, e) else Fail
    decreases ms, 2
  {
    hide ParseMember, ParseMembers, Fits, AllMembersFit;
    var p, j, k := MembersSplit(s, i, ms, e);
    MemberRead(s, i, ms[0], p, depth);
    if |ms| > 1 {
      MembersRead(s, k, ms[1..], e, depth);
      MembersMore(s, i, ms, p, j, k, e, depth);
    } else {
      MembersLast(s, i, ms, p, j, depth);
    }
  }

  // ---------------------------------------------------------------- what is read is a text

  lemma SkippedSpaces(s: string, i: nat)
    requires i <= |s|
    ensures Spaces(s, i, SkipSpace(s, i))
  {
  }

  lemma PeekIs(s: string, i: nat, c: char)
    requires Peek(s, i) == c && c != '\0'
    ensures CharAt(s, i, c)
  {
  }

  lemma StringFound(s: string, i: nat, bytes: string, e: nat)
    requires i <= |s| && ParseString(s, i) == Ok(bytes, e)
    ensures IsString(s, i, bytes, e)
  {
    hide Inside;
    PeekIs(s, i, '"');
    StringExactly(s, i + 1, bytes, e - 1);
  }

  /** Which values a first character leads to. */
  predicate Kind(c: char, v: Value) {
    match v
    case Null => c == 'n'
    case False => c == 'f'
    case True => c == 't'
    case Number(_) => c !in ['[', '{', '"', 't', 'f', 'n']
    case Str(_) => c == '"'
    case List(_) => c == '['
    case Object(_) => c == '{'
  }

  lemma ValueKind(s: string, i: nat, depth: nat)
    requires i <= |s|
    ensures var r := ParseValue(s, i, depth); r.Ok? ==> Kind(Peek(s, i), r.value)
  {
    hide ParseString, NumberEnd;
  }

  lemma WordFound(s: string, i: nat, depth: nat)
    requires i <= |s|
    ensures var r := ParseValue(s, i, depth);
            && (r.Ok? && r.value.Null? ==> IsWord(s, i, "null", r.pos))
            && (r.Ok? && r.value.True? ==> IsWord(s, i, "true", r.pos))
            && (r.Ok? && r.value.False? ==> IsWord(s, i, "false", r.pos))
  {
    hide ParseString, NumberEnd, ParseList, ParseObject;
    ValueKind(s, i, depth);
  }

  lemma NumberFound(s: string, i: nat, depth: nat)
    requires i <= |s|
    ensures var r := ParseValue(s, i, depth);
            r.Ok? && r.value.Number? ==> NumberEnd(s, i, Minus) == Some(r.pos) && s[i..r.pos] == r.value.text
  {
    hide ParseString, NumberEnd, ParseList, ParseObject;
    ValueKind(s, i, depth);
  }

  lemma ScalarFound(s: string, i: nat, v: Value, e: nat, depth: nat)
    requires i <= |s| && ParseValue(s, i, depth) == Ok(v, e) && !v.List? && !v.Object?
    ensures IsValue(s, i, v, e)
  {
    hide ParseValue, ParseString, NumberEnd, Tolerated, NumeralText;
    ValueKind(s, i, depth);
    match v
    case Number(_) =>
      NumberFound(s, i, depth);
      NumberExactly(s, i, e);
    case Str(_) =>
      PeekIs(s, i, '"');
      StrRule(s, i, depth);
      StringFound(s, i, v.s, e);
    case _ => WordFound(s, i, depth);
  }

  lemma {:induction false} ValueFound(s: string, i: nat, v: Value, e: nat, depth: nat)
    requires i <= |s| && ParseValue(s, i, depth) == Ok(v, e)
    ensures IsValue(s, i, v, e)
    decreases |s| - i, 1
  {
    hide ParseValue, ParseItems, ParseMembers, SkipSpace;
    ValueKind(s, i, depth);
    if v.List? {
      PeekIs(s, i, '[');
      ValueIsList(s, i, depth);
      var j := SkipSpace(s, i + 1);
      SkippedSpaces(s, i + 1);
      if Peek(s, j) == ']' {
        PeekIs(s, j, ']');
      } else {
        ItemsFound(s, j, v.items, e, depth + 1);
      }
    } else if v.Object? {
      PeekIs(s, i, '{');
      ValueIsObject(s, i, depth);
      var j := SkipSpace(s, i + 1);
      SkippedSpaces(s, i + 1);
      if Peek(s, j) == '}' {
        PeekIs(s, j, '}');
      } else {
        MembersFound(s, j, v.members, e, depth + 1);
      }
    } else {
      ScalarFound(s, i, v, e, depth);
    }
  }

  lemma ItemsJoin(s: string, i: nat, items: seq<Value>, p: nat, j: nat, k: nat, e: nat)
    requires items != [] && IsValue(s, i, items[0], p) && Spaces(s, p, j) && Spaces(s, j + 1, k)
    requires if |items| == 1 then CharAt(s, j, ']') && e == k == j + 1
             else CharAt(s, j, ',') && IsItems(s, k, items[1..], e)
    ensures IsItems(s, i, items, e)
  {
    assert IsItemsVia(s, i, items, e, p, j, k);
  }

  lemma {:induction false} ItemsFound(s: string, i: nat, items: seq<Value>, e: nat, depth: nat)
    requires i <= |s| && ParseItems(s, i, depth) == Ok(items, e)
    ensures items != [] && IsItems(s, i, items, e)
    decreases |s| - i, 2
  {
    hide ParseValue, SkipSpace, IsValue, IsItems;
    var r := ParseValue(s, i, depth + 1);
    ValueFound(s, i, r.value, r.pos, depth + 1);
    var j := SkipSpace(s, r.pos);
    SkippedSpaces(s, r.pos);
    if Peek(s, j) == ']' {
      PeekIs(s, j, ']');
      assert items == [r.value];
      ItemsJoin(s, i, items, r.pos, j, j + 1, e);
    } else {
      PeekIs(s, j, ',');
      var k := SkipSpace(s, j + 1);
      SkippedSpaces(s, j + 1);
      var rest := ParseItems(s, k, depth);
      ItemsFound(s, k, rest.value, e, depth);
      assert items == [r.value] + rest.value && items[1..] == rest.value;
      ItemsJoin(s, i, items, r.pos, j, k, e);
    }
  }

  lemma {:induction false} MemberFound(s: string, i: nat, m: Member, e: nat, depth: nat)
    requires i <= |s| && ParseMember(s, i, depth) == Ok(m, e)
    ensures IsMember(s, i, m, e)
    decreases |s| - i, 2
  {
    hide ParseValue, ParseString, SkipSpace, IsString, IsValue;
    var r := ParseString(s, i);
    StringFound(s, i, r.value, r.pos);
    var j := SkipSpace(s, r.pos);
    SkippedSpaces(s, r.pos);
    PeekIs(s, j, ':');
    var k := SkipSpace(s, j + 1);
    SkippedSpaces(s, j + 1);
    ValueFound(s, k, m.value, e, depth + 1);
  }

  lemma MembersJoin(s: string, i: nat, ms: seq<Member>, p: nat, j: nat, k: nat, e: nat)
    requires ms != [] && IsMember(s, i, ms[0], p) && Spaces(s, p, j) && Spaces(s, j + 1, k)
    requires if |ms| == 1 then CharAt(s, j, '}') && e == k == j + 1
             else CharAt(s, j, ',') && IsMembers(s, k, ms[1..], e)
    ensures IsMembers(s, i, ms, e)
  {
    assert IsMembersVia(s, i, ms, e, p, j, k);
  }

  lemma {:induction false} MembersFound(s: string, i: nat, ms: seq<Member>, e: nat, depth: nat)
    requires i <= |s| && ParseMembers(s, i, depth) == Ok(ms, e)
    ensures ms != [] && IsMembers(s, i, ms, e)
    decreases |s| - i, 3
  {
    hide ParseMember, SkipSpace, IsMember, IsMembers;
    var r := ParseMember(s, i, depth);
    MemberFound(s, i, r.value, r.pos, depth);
    var j := SkipSpace(s, r.pos);
    SkippedSpaces(s, r.pos);
    if Peek(s, j) == '}' {
      PeekIs(s, j, '}');
      assert ms == [r.value];
      MembersJoin(s, i, ms, r.pos, j, j + 1, e);
    } else {
      PeekIs(s, j, ',');
      var k := SkipSpace(s, j + 1);
      SkippedSpaces(s, j + 1);
      var rest := ParseMembers(s, k, depth);
      MembersFound(s, k, rest.value, e, depth);
      assert ms == [r.value] + rest.value && ms[1..] == rest.value;
      MembersJoin(s, i, ms, r.pos, j, k, e);
    }
  }

  // ---------------------------------------------------------------- exactly the grammar

  /** A value is read from a position if and only if it stands there in the text and its containers fit
      the depth. */
  lemma ValueExactly(s: string, i: nat, v: Value, e: nat, depth: nat)
    requires i <= |s|
    ensures ParseValue(s, i, depth) == Ok(v, e) <==> IsValue(s, i, v, e) && Fits(v, depth)
  {
    hide ParseValue, IsValue, Fits;
    if ParseValue(s, i, depth) == Ok(v, e) {
      ValueFound(s, i, v, e, depth);
    }
    if IsValue(s, i, v, e) {
      ValueRead(s, i, v, e, depth);
    }
  }

  /** load gives a value if and only if the text is that value, with space around it, and nests at most
      5000 containers. */
  lemma LoadExactly(s: string, v: Value)
    ensures Load(s) == Some(v) <==> IsText(s, v) && Nesting(v) <= 5000
  {
    hide ParseValue, IsValue, Fits, SkipSpace, Nesting;
    FitsIsNesting(v, 0);
    if Load(s) == Some(v) {
      var i := SkipSpace(s, 0);
      SkippedSpaces(s, 0);
      var r := ParseValue(s, i, 0);
      ValueExactly(s, i, v, r.pos, 0);
      SkippedSpaces(s, r.pos);
    }
    if IsText(s, v) && Nesting(v) <= 5000 {
      var i: nat, e: nat, j: nat :|
        Spaces(s, 0, i) && IsValue(s, i, v, e) && Spaces(s, e, j) && (j == |s| || CharAt(s, j, '\0'));
      ValueStarts(s, i, v, e);
      SpacesSkipped(s, 0, i);
      ValueExactly(s, i, v, e, 0);
      SpacesSkipped(s, e, j);
    }
  }
}
