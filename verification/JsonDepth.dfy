/** The byte-level nesting check that runs before JSON decoding
    (backend/internal/middleware/safe_json_decoder.go), and the RFC 8259 grammar it stands in for. */

/** Derivation trees of RFC 8259 (sections 2 to 7) and the texts they derive. */
module JsonGrammar {

  type Byte = b: int | 0 <= b < 256

  const TAB: Byte := 0x09
  const LF: Byte := 0x0A
  const CR: Byte := 0x0D
  const SPACE: Byte := 0x20
  const QUOTE: Byte := 0x22
  const COMMA: Byte := 0x2C
  const COLON: Byte := 0x3A
  const BACKSLASH: Byte := 0x5C
  const LBRACKET: Byte := 0x5B
  const RBRACKET: Byte := 0x5D
  const LBRACE: Byte := 0x7B
  const RBRACE: Byte := 0x7D

  lemma BytesAreThoseOfTheRFC()
    ensures TAB == '\t' as int && LF == '\n' as int && CR == '\r' as int && SPACE == ' ' as int
    ensures QUOTE == '\"' as int && COMMA == ',' as int && COLON == ':' as int && BACKSLASH == '\\' as int
    ensures LBRACKET == '[' as int && RBRACKET == ']' as int && LBRACE == '{' as int && RBRACE == '}' as int
  {
  }

  /** One character of a string: an unescaped byte, a two-character escape, or four hex digits. */
  datatype StringPart =
    | Plain(b: Byte)
    | Short(b: Byte)
    | Unicode(digits: seq<Byte>)

  datatype Value =
    | Literal(text: seq<Byte>)
    | Number(minus: bool, whole: seq<Byte>, fraction: seq<Byte>, exponent: seq<Byte>)
    | Text(parts: seq<StringPart>)
    | EmptyArray(space: seq<Byte>)
    | Array(items: Items)
    | EmptyObject(space: seq<Byte>)
    | Object(members: Members)

  /** A value with the whitespace on both sides of it. */
  datatype Element = Element(before: seq<Byte>, value: Value, after: seq<Byte>)

  datatype Items = LastItem(item: Element) | MoreItems(item: Element, rest: Items)

  datatype Member = Member(before: seq<Byte>, key: seq<StringPart>, after: seq<Byte>, element: Element)

  datatype Members = LastMember(member: Member) | MoreMembers(member: Member, rest: Members)

  // ---- Which trees are derivations ----

  predicate IsSpace(text: seq<Byte>) {
    forall k :: 0 <= k < |text| ==> text[k] in {SPACE, TAB, LF, CR}
  }

  predicate IsDigit(b: Byte) { 0x30 <= b <= 0x39 }

  predicate IsHex(b: Byte) { IsDigit(b) || 0x41 <= b <= 0x46 || 0x61 <= b <= 0x66 }

  predicate AllDigits(text: seq<Byte>) { forall k :: 0 <= k < |text| ==> IsDigit(text[k]) }

  predicate ValidPart(p: StringPart) {
    match p
    case Plain(b) => b >= 0x20 && b != QUOTE && b != BACKSLASH
    case Short(b) => b in {QUOTE, BACKSLASH, 0x2F, 0x62, 0x66, 0x6E, 0x72, 0x74}
    case Unicode(ds) => |ds| == 4 && forall k :: 0 <= k < 4 ==> IsHex(ds[k])
  }

  predicate ValidParts(parts: seq<StringPart>) { forall k :: 0 <= k < |parts| ==> ValidPart(parts[k]) }

  /** An empty exponent is an absent one; otherwise e or E, an optional sign, and digits. */
  predicate ValidExponent(text: seq<Byte>) {
    text == [] ||
    (text[0] in {0x65, 0x45} && |text| > 1 &&
     (AllDigits(text[1..]) || (text[1] in {0x2B, 0x2D} && |text| > 2 && AllDigits(text[2..]))))
  }

  predicate ValidValue(v: Value) {
    match v
    case Literal(t) =>
      t in {[0x6E, 0x75, 0x6C, 0x6C], [0x74, 0x72, 0x75, 0x65], [0x66, 0x61, 0x6C, 0x73, 0x65]}
    case Number(_, whole, fraction, exponent) =>
      && |whole| > 0 && AllDigits(whole) && (|whole| > 1 ==> whole[0] != 0x30)
      && (fraction == [] || (fraction[0] == 0x2E && |fraction| > 1 && AllDigits(fraction[1..])))
      && ValidExponent(exponent)
    case Text(parts) => ValidParts(parts)
    case EmptyArray(space) => IsSpace(space)
    case Array(items) => ValidItems(items)
    case EmptyObject(space) => IsSpace(space)
    case Object(members) => ValidMembers(members)
  }

  predicate ValidElement(e: Element) { IsSpace(e.before) && ValidValue(e.value) && IsSpace(e.after) }

  predicate ValidItems(items: Items) {
    match items
    case LastItem(e) => ValidElement(e)
    case MoreItems(e, rest) => ValidElement(e) && ValidItems(rest)
  }

  predicate ValidMember(m: Member) {
    IsSpace(m.before) && ValidParts(m.key) && IsSpace(m.after) && ValidElement(m.element)
  }

  predicate ValidMembers(members: Members) {
    match members
    case LastMember(m) => ValidMember(m)
    case MoreMembers(m, rest) => ValidMember(m) && ValidMembers(rest)
  }

  // ---- The text of a tree ----

  function PartText(p: StringPart): seq<Byte> {
    match p
    case Plain(b) => [b]
    case Short(b) => [BACKSLASH, b]
    case Unicode(ds) => [BACKSLASH, 0x75] + ds
  }

  function PartsText(parts: seq<StringPart>): seq<Byte> {
    if parts == [] then [] else PartsText(parts[..|parts| - 1]) + PartText(parts[|parts| - 1])
  }

  function StringText(parts: seq<StringPart>): seq<Byte> { [QUOTE] + PartsText(parts) + [QUOTE] }

  function ValueText(v: Value): seq<Byte> {
    match v
    case Literal(t) => t
    case Number(minus, whole, fraction, exponent) =>
      (if minus then [0x2D] else []) + whole + fraction + exponent
    case Text(parts) => StringText(parts)
    case EmptyArray(space) => [LBRACKET] + space + [RBRACKET]
    case Array(items) => [LBRACKET] + ItemsText(items) + [RBRACKET]
    case EmptyObject(space) => [LBRACE] + space + [RBRACE]
    case Object(members) => [LBRACE] + MembersText(members) + [RBRACE]
  }

  function ElementText(e: Element): seq<Byte> { e.before + ValueText(e.value) + e.after }

  function ItemsText(items: Items): seq<Byte> {
    match items
    case LastItem(e) => ElementText(e)
    case MoreItems(e, rest) => ElementText(e) + [COMMA] + ItemsText(rest)
  }

  function MemberText(m: Member): seq<Byte> {
    m.before + StringText(m.key) + m.after + [COLON] + ElementText(m.element)
  }

  function MembersText(members: Members): seq<Byte> {
    match members
    case LastMember(m) => MemberText(m)
    case MoreMembers(m, rest) => MemberText(m) + [COMMA] + MembersText(rest)
  }

  // ---- What the limits are about ----

  function Max(a: nat, b: nat): nat { if a < b then b else a }

  /** Object and array nesting depth: a scalar has depth 0. */
  function Depth(v: Value): nat {
    match v
    case Literal(_) => 0
    case Number(_, _, _, _) => 0
    case Text(_) => 0
    case EmptyArray(_) => 1
    case Array(items) => 1 + ItemsDepth(items)
    case EmptyObject(_) => 1
    case Object(members) => 1 + MembersDepth(members)
  }

  function ItemsDepth(items: Items): nat {
    match items
    case LastItem(e) => Depth(e.value)
    case MoreItems(e, rest) => Max(Depth(e.value), ItemsDepth(rest))
  }

  function MembersDepth(members: Members): nat {
    match members
    case LastMember(m) => Depth(m.element.value)
    case MoreMembers(m, rest) => Max(Depth(m.element.value), MembersDepth(rest))
  }

  predicate HasArray(v: Value) {
    match v
    case Literal(_) => false
    case Number(_, _, _, _) => false
    case Text(_) => false
    case EmptyArray(_) => true
    case Array(_) => true
    case EmptyObject(_) => false
    case Object(members) => MembersHaveArray(members)
  }

  predicate ItemsHaveArray(items: Items) {
    match items
    case LastItem(e) => HasArray(e.value)
    case MoreItems(e, rest) => HasArray(e.value) || ItemsHaveArray(rest)
  }

  predicate MembersHaveArray(members: Members) {
    match members
    case LastMember(m) => HasArray(m.element.value)
    case MoreMembers(m, rest) => HasArray(m.element.value) || MembersHaveArray(rest)
  }
}

/** The one-pass scanner and what it decides. */
module JsonDepth {
  import opened JsonGrammar

  datatype Mode = Outside | InString | Escaped

  datatype ScanState = ScanState(depth: int, mode: Mode)

  const START := ScanState(0, Outside)

  datatype Verdict = Accepted | TooDeep(depth: int) | ArrayTooLong(length: int)

  /** The state after one more byte. */
  function Step(s: ScanState, b: Byte): ScanState {
    match s.mode
    case Escaped => s.(mode := InString)
    case InString =>
      if b == BACKSLASH then s.(mode := Escaped)
      else if b == QUOTE then s.(mode := Outside)
      else s
    case Outside =>
      if b == QUOTE then s.(mode := InString)
      else if b == LBRACE || b == LBRACKET then s.(depth := s.depth + 1)
      else if b == RBRACE || b == RBRACKET then s.(depth := s.depth - 1)
      else s
  }

  /** The state after a whole text; `depth` is the net bracket count outside strings. */
  function Scan(s: ScanState, data: seq<Byte>): ScanState {
    if data == [] then s else Step(Scan(s, data[..|data| - 1]), data[|data| - 1])
  }

  datatype SafeJSONDecoder = SafeJSONDecoder(maxDepth: int, maxArrayLen: int) {

    /** What one byte, read in state s, does to the verdict. */
    function Judge(s: ScanState, b: Byte): Verdict {
      if !s.mode.Outside? then Accepted
      else if (b == LBRACE || b == LBRACKET) && s.depth + 1 > maxDepth then TooDeep(s.depth + 1)
      else if b == RBRACKET && 0 > maxArrayLen then ArrayTooLong(0)
      else Accepted
    }

    ghost predicate FitsAt(s: ScanState, data: seq<Byte>, k: nat)
      requires k < |data|
    {
      Judge(Scan(s, data[..k]), data[k]).Accepted?
    }

    /** No byte of the text, read from state s, is objected to. */
    ghost predicate Fits(s: ScanState, data: seq<Byte>) {
      forall k: nat | k < |data| :: FitsAt(s, data, k)
    }

    /** checkDepth, flag by flag as the source keeps them. */
    method CheckDepth(data: seq<Byte>) returns (verdict: Verdict)
      ensures verdict.Accepted? <==> Fits(START, data)
      ensures !verdict.Accepted? ==>
                exists k: nat ::
                  && k < |data|
                  && Fits(START, data[..k])
                  && verdict == Judge(Scan(START, data[..k]), data[k])
    {
      var depth := 0;
      var inString := false;
      var escape := false;
      var arrayLen := 0;
      var maxArrayInCurrent := 0;
      for i := 0 to |data|
        invariant arrayLen == 0 && maxArrayInCurrent == 0
        invariant escape ==> inString
        invariant Scan(START, data[..i]) ==
                  ScanState(depth, if escape then Escaped else if inString then InString else Outside)
        invariant Fits(START, data[..i])
      {
        var b := data[i];
        ghost var s := Scan(START, data[..i]);
        assert data[..i + 1][..i] == data[..i];
        assert Scan(START, data[..i + 1]) == Step(s, b);
        FitsExtend(START, data, i);
        if escape {
          escape := false;
          continue;
        }
        if b == BACKSLASH && inString {
          escape := true;
          continue;
        }
        if b == QUOTE {
          inString := !inString;
          continue;
        }
        if inString {
          continue;
        }
        if b == SPACE || b == TAB || b == LF || b == CR || b == COLON || b == COMMA {
          continue;
        }
        if b == LBRACE {
          depth := depth + 1;
          if depth > maxDepth {
            return TooDeep(depth);
          }
        } else if b == LBRACKET {
          depth := depth + 1;
          if depth > maxDepth {
            return TooDeep(depth);
          }
          arrayLen := 0;
        } else if b == RBRACE {
          depth := depth - 1;
        } else if b == RBRACKET {
          depth := depth - 1;
          if arrayLen > maxArrayInCurrent {
            maxArrayInCurrent := arrayLen;
          }
          if maxArrayInCurrent > maxArrayLen {
            return ArrayTooLong(maxArrayInCurrent);
          }
        }
      }
      assert data[..|data|] == data;
      verdict := Accepted;
    }

    /** One more byte: the longer prefix fits exactly when the shorter does and the byte is accepted. */
    lemma FitsExtend(s: ScanState, data: seq<Byte>, i: nat)
      requires i < |data|
      ensures Fits(s, data[..i + 1]) <==> Fits(s, data[..i]) && Judge(Scan(s, data[..i]), data[i]).Accepted?
      ensures Judge(Scan(s, data[..i]), data[i]).Accepted? <== Fits(s, data)
    {
      assert FitsAt(s, data[..i + 1], i) <==> Judge(Scan(s, data[..i]), data[i]).Accepted? by {
        assert data[..i + 1][..i] == data[..i];
      }
      forall k: nat | k < i ensures FitsAt(s, data[..i + 1], k) <==> FitsAt(s, data[..i], k) {
        assert data[..i + 1][..k] == data[..i][..k];
      }
      if Fits(s, data[..i]) && Judge(Scan(s, data[..i]), data[i]).Accepted? {
        var longer := data[..i + 1];
        forall k: nat | k < |longer| ensures FitsAt(s, longer, k) {
          assert k < i ==> FitsAt(s, data[..i], k);
        }
      }
      if Fits(s, data[..i + 1]) {
        forall k: nat | k < i ensures FitsAt(s, data[..i], k) {
          assert FitsAt(s, data[..i + 1], k);
        }
        assert FitsAt(s, data[..i + 1], i);
      }
      assert Fits(s, data) ==> FitsAt(s, data, i);
    }

    /** On any bytes whatever, well-formed or not: with non-negative limits the scan accepts exactly
        when no prefix has a net bracket count, outside strings, above the limit. */
    lemma {:induction false} PrefixesDecide(data: seq<Byte>)
      requires maxDepth >= 0 && maxArrayLen >= 0
      ensures Fits(START, data) <==> forall k: nat | k <= |data| :: Scan(START, data[..k]).depth <= maxDepth
    {
      if data == [] {
        assert forall k: nat | k <= |data| :: data[..k] == [];
      } else {
        var n := |data| - 1;
        assert Scan(START, data) == Step(Scan(START, data[..n]), data[n]);
        hide Fits, FitsAt, Scan;
        PrefixesDecide(data[..n]);
        FitsExtend(START, data, n);
        assert data[..n + 1] == data;
        assert forall k: nat | k <= n :: data[..n][..k] == data[..k];
        assert Fits(START, data[..n]) ==> Scan(START, data[..n][..n]).depth <= maxDepth;
        assert forall k: nat | k <= |data| :: k <= n || data[..k] == data;
        if forall k: nat | k <= |data| :: Scan(START, data[..k]).depth <= maxDepth {
          forall k: nat | k <= n ensures Scan(START, data[..n][..k]).depth <= maxDepth {
            assert Scan(START, data[..k]).depth <= maxDepth;
          }
          assert Scan(START, data[..n + 1]).depth <= maxDepth;
        }
      }
    }

    // ---- Composition ----

    /** Scanning a concatenation is scanning the second part from where the first leaves off, and
        the limits hold of the whole exactly when they hold of both parts. */
    lemma {:induction false} ConcatScan(s: ScanState, a: seq<Byte>, b: seq<Byte>)
      ensures Scan(s, a + b) == Scan(Scan(s, a), b)
      ensures Fits(s, a + b) <==> Fits(s, a) && Fits(Scan(s, a), b)
    {
      if b == [] {
        assert a + b == a;
      } else {
        var n := |b| - 1;
        var ab := a + b[..n];
        assert (a + b)[..|a| + n] == ab;
        assert Scan(s, a + b) == Step(Scan(s, ab), b[n]);
        assert Scan(Scan(s, a), b) == Step(Scan(Scan(s, a), b[..n]), b[n]);
        hide Scan, Step, Judge, Fits, FitsAt;
        assert (a + b)[..|a + b|] == a + b && b[..|b|] == b;
        ConcatScan(s, a, b[..n]);
        FitsExtend(s, a + b, |a| + n);
        FitsExtend(Scan(s, a), b, n);
      }
    }

    lemma OneByte(s: ScanState, b: Byte)
      ensures Scan(s, [b]) == Step(s, b)
      ensures Fits(s, [b]) <==> Judge(s, b).Accepted?
    {
      FitsExtend(s, [b], 0);
      assert [b][..1] == [b] && [b][..0] == [];
    }

    /** `open`, a middle part that returns to its own starting state, and `close`. */
    lemma Bracketed(s: ScanState, open: Byte, middle: seq<Byte>, close: Byte)
      ensures var inner := Step(s, open);
              Scan(inner, middle) == inner ==>
                && Scan(s, [open] + middle + [close]) == Step(inner, close)
                && (Fits(s, [open] + middle + [close]) <==>
                    Judge(s, open).Accepted? && Fits(inner, middle) && Judge(inner, close).Accepted?)
    {
      OneByte(s, open);
      ConcatScan(s, [open], middle);
      ConcatScan(s, [open] + middle, [close]);
      OneByte(Scan(s, [open] + middle), close);
    }

    // ---- The lexical layer ----

    /** Bytes that mean nothing to the scanner outside strings. */
    predicate Inert(data: seq<Byte>) {
      forall k :: 0 <= k < |data| ==> data[k] !in {QUOTE, LBRACE, RBRACE, LBRACKET, RBRACKET}
    }

    lemma {:induction false} InertScan(s: ScanState, data: seq<Byte>)
      requires s.mode.Outside? && Inert(data)
      ensures Scan(s, data) == s && Fits(s, data)
    {
      if data != [] {
        var n := |data| - 1;
        InertScan(s, data[..n]);
        FitsExtend(s, data, n);
        assert data[..n + 1] == data;
      }
    }

    /** Whatever a string part contains, it stays inside the string and counts for nothing. */
    lemma PartScan(s: ScanState, p: StringPart)
      requires s.mode.InString? && ValidPart(p)
      ensures Scan(s, PartText(p)) == s && Fits(s, PartText(p))
    {
      match p
      case Plain(b) => OneByte(s, b);
      case Short(b) =>
        OneByte(s, BACKSLASH);
        OneByte(s.(mode := Escaped), b);
        ConcatScan(s, [BACKSLASH], [b]);
        assert PartText(p) == [BACKSLASH] + [b];
      case Unicode(ds) =>
        OneByte(s, BACKSLASH);
        OneByte(s.(mode := Escaped), 0x75);
        ConcatScan(s, [BACKSLASH], [0x75]);
        assert [BACKSLASH, 0x75] == [BACKSLASH] + [0x75];
        ConcatScan(s, [BACKSLASH, 0x75], ds);
        forall k | 0 <= k < |ds| ensures ds[k] != QUOTE && ds[k] != BACKSLASH {
          assert IsHex(ds[k]);
        }
        HarmlessInString(s, ds);
    }

    lemma {:induction false} HarmlessInString(s: ScanState, data: seq<Byte>)
      requires s.mode.InString?
      requires forall k :: 0 <= k < |data| ==> data[k] != QUOTE && data[k] != BACKSLASH
      ensures Scan(s, data) == s && Fits(s, data)
    {
      if data != [] {
        var n := |data| - 1;
        HarmlessInString(s, data[..n]);
        FitsExtend(s, data, n);
        assert data[..n + 1] == data;
      }
    }

    lemma {:induction false} PartsScan(s: ScanState, parts: seq<StringPart>)
      requires s.mode.InString? && ValidParts(parts)
      ensures Scan(s, PartsText(parts)) == s && Fits(s, PartsText(parts))
    {
      if parts != [] {
        var n := |parts| - 1;
        PartsScan(s, parts[..n]);
        PartScan(s, parts[n]);
        ConcatScan(s, PartsText(parts[..n]), PartText(parts[n]));
      }
    }

    lemma StringScan(s: ScanState, parts: seq<StringPart>)
      requires s.mode.Outside? && ValidParts(parts)
      ensures Scan(s, StringText(parts)) == s && Fits(s, StringText(parts))
    {
      PartsScan(s.(mode := InString), parts);
      Bracketed(s, QUOTE, PartsText(parts), QUOTE);
    }

    lemma SpaceScan(s: ScanState, space: seq<Byte>)
      requires s.mode.Outside? && IsSpace(space)
      ensures Scan(s, space) == s && Fits(s, space)
    {
      forall k | 0 <= k < |space| ensures space[k] !in {QUOTE, LBRACE, RBRACE, LBRACKET, RBRACKET} {
        assert space[k] in {SPACE, TAB, LF, CR};
      }
      InertScan(s, space);
    }

    lemma NumberScan(s: ScanState, v: Value)
      requires s.mode.Outside? && v.Number? && ValidValue(v)
      ensures Scan(s, ValueText(v)) == s && Fits(s, ValueText(v))
    {
      var minus := if v.minus then [0x2D] else [];
      DigitsAreInert(v.whole);
      assert Inert(v.fraction) by {
        if v.fraction != [] {
          DigitsAreInert(v.fraction[1..]);
          assert v.fraction == [0x2E] + v.fraction[1..];
        }
      }
      assert Inert(v.exponent) by {
        if v.exponent != [] {
          if AllDigits(v.exponent[1..]) {
            DigitsAreInert(v.exponent[1..]);
            assert v.exponent == [v.exponent[0]] + v.exponent[1..];
          } else {
            DigitsAreInert(v.exponent[2..]);
            assert v.exponent == [v.exponent[0], v.exponent[1]] + v.exponent[2..];
          }
        }
      }
      InertScan(s, minus + v.whole + v.fraction + v.exponent);
    }

    lemma DigitsAreInert(digits: seq<Byte>)
      requires AllDigits(digits)
      ensures Inert(digits)
    {
      forall k | 0 <= k < |digits| ensures digits[k] !in {QUOTE, LBRACE, RBRACE, LBRACKET, RBRACKET} {
        assert IsDigit(digits[k]);
      }
    }

    // ---- The grammar layer ----

    /** The limits, as a property of a tree of the given depth met at nesting level `level`. */
    predicate Allows(level: int, depth: nat, hasArray: bool) {
      (depth == 0 || level + depth <= maxDepth) && (maxArrayLen >= 0 || !hasArray)
    }

    lemma {:induction false} ValueScan(s: ScanState, v: Value)
      requires s.mode.Outside? && ValidValue(v)
      ensures Scan(s, ValueText(v)) == s
      ensures Fits(s, ValueText(v)) <==> Allows(s.depth, Depth(v), HasArray(v))
      decreases v
    {
      hide Scan, Fits;
      var inner := s.(depth := s.depth + 1);
      match v
      case Literal(text) => InertScan(s, text);
      case Number(_, _, _, _) => NumberScan(s, v);
      case Text(parts) => StringScan(s, parts);
      case EmptyArray(space) =>
        SpaceScan(inner, space);
        Bracketed(s, LBRACKET, space, RBRACKET);
      case Array(items) =>
        ItemsScan(inner, items);
        Bracketed(s, LBRACKET, ItemsText(items), RBRACKET);
      case EmptyObject(space) =>
        SpaceScan(inner, space);
        Bracketed(s, LBRACE, space, RBRACE);
      case Object(members) =>
        MembersScan(inner, members);
        Bracketed(s, LBRACE, MembersText(members), RBRACE);
    }

    lemma {:induction false} ElementScan(s: ScanState, e: Element)
      requires s.mode.Outside? && ValidElement(e)
      ensures Scan(s, ElementText(e)) == s
      ensures Fits(s, ElementText(e)) <==> Allows(s.depth, Depth(e.value), HasArray(e.value))
      decreases e
    {
      SpaceScan(s, e.before);
      ValueScan(s, e.value);
      SpaceScan(s, e.after);
      ConcatScan(s, e.before, ValueText(e.value));
      ConcatScan(s, e.before + ValueText(e.value), e.after);
    }

    lemma {:induction false} ItemsScan(s: ScanState, items: Items)
      requires s.mode.Outside? && ValidItems(items)
      ensures Scan(s, ItemsText(items)) == s
      ensures Fits(s, ItemsText(items)) <==> Allows(s.depth, ItemsDepth(items), ItemsHaveArray(items))
      decreases items
    {
      ElementScan(s, items.item);
      if items.MoreItems? {
        InertScan(s, [COMMA]);
        ItemsScan(s, items.rest);
        ConcatScan(s, ElementText(items.item), [COMMA]);
        ConcatScan(s, ElementText(items.item) + [COMMA], ItemsText(items.rest));
      }
    }

    lemma {:induction false} MemberScan(s: ScanState, m: Member)
      requires s.mode.Outside? && ValidMember(m)
      ensures Scan(s, MemberText(m)) == s
      ensures Fits(s, MemberText(m)) <==> Allows(s.depth, Depth(m.element.value), HasArray(m.element.value))
      decreases m
    {
      var name := m.before + StringText(m.key);
      SpaceScan(s, m.before);
      StringScan(s, m.key);
      SpaceScan(s, m.after);
      InertScan(s, [COLON]);
      ElementScan(s, m.element);
      ConcatScan(s, m.before, StringText(m.key));
      ConcatScan(s, name, m.after);
      ConcatScan(s, name + m.after, [COLON]);
      ConcatScan(s, name + m.after + [COLON], ElementText(m.element));
    }

    lemma {:induction false} MembersScan(s: ScanState, members: Members)
      requires s.mode.Outside? && ValidMembers(members)
      ensures Scan(s, MembersText(members)) == s
      ensures Fits(s, MembersText(members)) <==>
              Allows(s.depth, MembersDepth(members), MembersHaveArray(members))
      decreases members
    {
      MemberScan(s, members.member);
      if members.MoreMembers? {
        InertScan(s, [COMMA]);
        MembersScan(s, members.rest);
        ConcatScan(s, MemberText(members.member), [COMMA]);
        ConcatScan(s, MemberText(members.member) + [COMMA], MembersText(members.rest));
      }
    }

    /** The fast scan decides the nesting depth of every JSON text. Both side cases are the code's:
        a scalar passes even a negative depth limit, and a negative array limit refuses any array. */
    lemma DepthDecided(document: Element)
      requires ValidElement(document)
      ensures Fits(START, ElementText(document)) <==>
              && (Depth(document.value) == 0 || Depth(document.value) <= maxDepth)
              && (maxArrayLen >= 0 || !HasArray(document.value))
    {
      ElementScan(START, document);
    }

    /** checkDepth on a JSON text: the outcome, and the depth reported when it is refused. */
    method CheckDocument(document: Element) returns (verdict: Verdict)
      requires ValidElement(document)
      ensures verdict.Accepted? <==>
              && (Depth(document.value) == 0 || Depth(document.value) <= maxDepth)
              && (maxArrayLen >= 0 || !HasArray(document.value))
      ensures maxDepth >= 0 && maxArrayLen >= 0 ==>
                verdict == if Depth(document.value) <= maxDepth then Accepted else TooDeep(maxDepth + 1)
    {
      hide ElementText, ValidElement, Depth, HasArray, Fits, Scan;
      var data := ElementText(document);
      verdict := CheckDepth(data);
      DepthDecided(document);
      if !verdict.Accepted? && maxDepth >= 0 && maxArrayLen >= 0 {
        ghost var k: nat :| k < |data| && Fits(START, data[..k]) && verdict == Judge(Scan(START, data[..k]), data[k]);
        PrefixesDecide(data[..k]);
        assert data[..k][..k] == data[..k];
      }
    }
  }

  /** Two derivations of one text have the same depth: the scan sees only the text. */
  lemma DepthIsOfTheText(d1: Element, d2: Element)
    requires ValidElement(d1) && ValidElement(d2)
    requires ElementText(d1) == ElementText(d2)
    ensures Depth(d1.value) == Depth(d2.value)
  {
    var shallow := if Depth(d1.value) < Depth(d2.value) then Depth(d1.value) else Depth(d2.value);
    var decoder := SafeJSONDecoder(shallow, 0);
    decoder.DepthDecided(d1);
    decoder.DepthDecided(d2);
  }
}
