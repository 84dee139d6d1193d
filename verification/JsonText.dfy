/** JSON texts (RFC 8259) as trees that remember every character. */
module JsonText {
  import opened Options

  /** Section 2: space, horizontal tab, line feed, carriage return. */
  const WHITESPACE: set<int> := {0x20, 0x09, 0x0a, 0x0d}

  predicate IsWs(c: char) {
    c as int in WHITESPACE
  }

  predicate AllWs(s: string) {
    forall i :: 0 <= i < |s| ==> IsWs(s[i])
  }

  predicate IsDigit(c: char) {
    '0' <= c <= '9'
  }

  predicate Digits(s: string) {
    s != [] && forall i :: 0 <= i < |s| ==> IsDigit(s[i])
  }

  predicate IsHex(c: char) {
    IsDigit(c) || 'a' <= c <= 'f' || 'A' <= c <= 'F'
  }

  /** Section 7: a character of a string, as it is, escaped, or by number. */
  datatype StringChar = Plain(c: char) | Escaped(c: char) | Numbered(digits: string) {
    predicate Valid() {
      match this
      case Plain(c) => c >= ' ' && c != '"' && c != '\\'
      case Escaped(c) => c in "\"\\/bfnrt"
      case Numbered(digits) => |digits| == 4 && forall i :: 0 <= i < 4 ==> IsHex(digits[i])
    }

    function Text(): string {
      match this
      case Plain(c) => [c]
      case Escaped(c) => ['\\', c]
      case Numbered(digits) => ['\\', 'u'] + digits
    }
  }

  predicate ValidChars(cs: seq<StringChar>) {
    forall i :: 0 <= i < |cs| ==> cs[i].Valid()
  }

  function CharsText(cs: seq<StringChar>): string {
    if cs == [] then [] else cs[0].Text() + CharsText(cs[1..])
  }

  /** A string with its quotation marks. */
  function StringText(cs: seq<StringChar>): string {
    ['"'] + (CharsText(cs) + ['"'])
  }

  /** Sections 3 and 6: the literal names and numbers. */
  datatype Scalar = True | False | Null | Number(minus: bool, whole: string, fraction: string, exponent: string) {
    predicate Valid() {
      match this
      case Number(minus, whole, fraction, exponent) =>
        && Digits(whole) && (whole[0] == '0' ==> |whole| == 1)
        && (fraction != [] ==> fraction[0] == '.' && Digits(fraction[1..]))
        && (exponent != [] ==>
              && (exponent[0] == 'e' || exponent[0] == 'E')
              && (Digits(exponent[1..]) || (|exponent| > 1 && exponent[1] in "+-" && Digits(exponent[2..]))))
      case _ => true
    }

    function Text(): string {
      match this
      case True => "true"
      case False => "false"
      case Null => "null"
      case Number(minus, whole, fraction, exponent) => (if minus then "-" else "") + whole + fraction + exponent
    }
  }

  /** Values; the strings named before and after are the whitespace around a part. */
  datatype Value =
    | Atom(scalar: Scalar)
    | Str(chars: seq<StringChar>)
    | EmptyArray(inside: string)
    | Array(items: Items)
    | EmptyObject(inside: string)
    | Object(members: Members)

  datatype Items =
    | LastItem(before: string, value: Value, after: string)
    | Item(before: string, value: Value, after: string, rest: Items)

  datatype Members =
    | LastMember(before: string, key: seq<StringChar>, mid: string, gap: string, value: Value, after: string)
    | Member(before: string, key: seq<StringChar>, mid: string, gap: string, value: Value, after: string, rest: Members)

  predicate ValidValue(v: Value) {
    match v
    case Atom(s) => s.Valid()
    case Str(cs) => ValidChars(cs)
    case EmptyArray(ws) => AllWs(ws)
    case Array(items) => ValidItems(items)
    case EmptyObject(ws) => AllWs(ws)
    case Object(members) => ValidMembers(members)
  }

  predicate ValidItems(items: Items) {
    && AllWs(items.before) && AllWs(items.after) && ValidValue(items.value)
    && (items.Item? ==> ValidItems(items.rest))
  }

  predicate ValidMembers(ms: Members) {
    && AllWs(ms.before) && AllWs(ms.mid) && AllWs(ms.gap) && AllWs(ms.after)
    && ValidChars(ms.key) && ValidValue(ms.value)
    && (ms.Member? ==> ValidMembers(ms.rest))
  }

  /** The text of a value. */
  function ValueText(v: Value): string {
    match v
    case Atom(s) => s.Text()
    case Str(cs) => StringText(cs)
    case EmptyArray(ws) => ['['] + (ws + [']'])
    case Array(items) => ['['] + ItemsText(items)
    case EmptyObject(ws) => ['{'] + (ws + ['}'])
    case Object(members) => ['{'] + MembersText(members)
  }

  /** Items through the closing bracket. */
  function ItemsText(items: Items): string {
    items.before + (ValueText(items.value) + (items.after + (
      if items.LastItem? then [']'] else [','] + ItemsText(items.rest))))
  }

  /** Members through the closing brace. */
  function MembersText(ms: Members): string {
    ms.before + (StringText(ms.key) + (ms.mid + ([':'] + (ms.gap + (ValueText(ms.value) + (ms.after + (
      if ms.LastMember? then ['}'] else [','] + MembersText(ms.rest))))))))
  }

  // What the grammar admits, by code points

  lemma WhitespaceIs(c: char)
    ensures IsWs(c) <==> c as int == 0x20 || c as int == 0x09 || c as int == 0x0a || c as int == 0x0d
  {
  }

  /** Sections 6 and 7: which characters can stand where. */
  lemma TerminalsAre(c: char)
    ensures IsDigit(c) <==> 0x30 <= c as int <= 0x39
    ensures IsHex(c) <==> 0x30 <= c as int <= 0x39 || 0x41 <= c as int <= 0x46 || 0x61 <= c as int <= 0x66
    ensures Plain(c).Valid() <==> c as int >= 0x20 && c as int != 0x22 && c as int != 0x5c
    ensures Escaped(c).Valid() <==> c as int in {0x22, 0x5c, 0x2f, 0x62, 0x66, 0x6e, 0x72, 0x74}
  {
    var escapes := "\"\\/bfnrt";
    assert forall i :: 0 <= i < |escapes| ==> escapes[i] as int in {0x22, 0x5c, 0x2f, 0x62, 0x66, 0x6e, 0x72, 0x74};
    assert |escapes| == 8;
    EscapeAt(c);
  }

  lemma EscapeAt(c: char)
    ensures c as int in {0x22, 0x5c, 0x2f, 0x62, 0x66, 0x6e, 0x72, 0x74} ==> c in "\"\\/bfnrt"
  {
    var escapes := "\"\\/bfnrt";
    assert escapes[0] as int == 0x22 && escapes[1] as int == 0x5c && escapes[2] as int == 0x2f;
    assert escapes[3] as int == 0x62 && escapes[4] as int == 0x66 && escapes[5] as int == 0x6e;
    assert escapes[6] as int == 0x72 && escapes[7] as int == 0x74;
  }

  lemma NumbersAre(minus: bool, whole: string, fraction: string, exponent: string)
    requires Digits(whole) && Digits(fraction) && Digits(exponent)
    ensures Number(minus, "0", [], []).Valid()
    ensures whole[0] != '0' ==>
              && Number(minus, whole, [], []).Valid() && Number(minus, whole, ['.'] + fraction, []).Valid()
              && Number(minus, whole, ['.'] + fraction, ['e'] + exponent).Valid()
              && Number(minus, whole, [], ['E', '+'] + exponent).Valid()
              && Number(minus, whole, [], ['E', '-'] + exponent).Valid()
    ensures whole[0] == '0' && |whole| > 1 ==> !Number(minus, whole, [], []).Valid()
  {
    assert (['.'] + fraction)[1..] == fraction && (['e'] + exponent)[1..] == exponent;
    assert (['E', '+'] + exponent)[2..] == exponent && (['E', '-'] + exponent)[2..] == exponent;
  }

  /** An array of two, an object of two, and what is in them. */
  lemma TextOfAnArray(a: Value, b: Value)
    ensures ValueText(EmptyArray([])) == "[]" && ValueText(EmptyObject([])) == "{}"
    ensures ItemsText(LastItem([], b, [])) == ValueText(b) + "]"
    ensures ValueText(Array(Item([], a, [], LastItem([], b, []))))
         == "[" + (ValueText(a) + ("," + (ValueText(b) + "]")))
  {
    assert [] + (ValueText(b) + ([] + [']'])) == ValueText(b) + "]";
    var last := LastItem([], b, []);
    assert [] + (ValueText(a) + ([] + ([','] + ItemsText(last)))) == ValueText(a) + ("," + ItemsText(last));
  }

  lemma TextOfAnObject(k: seq<StringChar>, a: Value, l: seq<StringChar>, b: Value)
    ensures var last := LastMember([], l, [], [], b, []);
            && MembersText(last) == StringText(l) + (":" + (ValueText(b) + "}"))
            && ValueText(Object(Member([], k, [], [], a, [], last))) ==
               "{" + (StringText(k) + (":" + (ValueText(a) + ("," + MembersText(last)))))
  {
    hide StringText;
    var last := LastMember([], l, [], [], b, []);
    NothingBetween(StringText(l), ValueText(b), "}");
    NothingBetween(StringText(k), ValueText(a), [','] + MembersText(last));
  }

  lemma NothingBetween(key: string, value: string, tail: string)
    ensures [] + (key + ([] + ([':'] + ([] + (value + ([] + tail)))))) == key + (":" + (value + tail))
  {
  }

  lemma TextOfScalars()
    ensures True.Text() == "true" && False.Text() == "false" && Null.Text() == "null"
    ensures Number(true, "10", ".5", "e+7").Text() == "-10.5e+7" && Number(false, "0", [], []).Text() == "0"
    ensures StringText([Plain('a'), Escaped('n'), Numbered("00e9")]) == "\"a\\n\\u00e9\""
  {
    var cs := [Plain('a'), Escaped('n'), Numbered("00e9")];
    assert cs[1..] == [Escaped('n'), Numbered("00e9")] && cs[1..][1..] == [Numbered("00e9")] && cs[1..][1..][1..] == [];
    assert CharsText([]) == [];
    assert CharsText(cs[1..][1..]) == "\\u00e9";
    assert CharsText(cs[1..]) == "\\n\\u00e9";
    assert CharsText(cs) == "a\\n\\u00e9";
  }

  // Duplicate keys

  /** Turns a string literal into the key it denotes, or fails. */
  type Decoder = string -> Option<string>

  /** The keys of one object, in order. */
  function Keys(d: Decoder, ms: Members): seq<Option<string>> {
    [d(StringText(ms.key))] + if ms.LastMember? then [] else Keys(d, ms.rest)
  }

  /** All keys can be decoded, and no two are equal. */
  predicate AllDifferent(keys: seq<Option<string>>) {
    && (forall i :: 0 <= i < |keys| ==> keys[i].Some?)
    && (forall i, j :: 0 <= i < j < |keys| ==> keys[i] != keys[j])
  }

  /** No object at any depth has a key twice. */
  predicate NoDuplicates(d: Decoder, v: Value) {
    match v
    case Array(items) => NoDuplicateItems(d, items)
    case Object(members) => AllDifferent(Keys(d, members)) && NoDuplicateMembers(d, members)
    case _ => true
  }

  predicate NoDuplicateItems(d: Decoder, items: Items) {
    NoDuplicates(d, items.value) && (items.Item? ==> NoDuplicateItems(d, items.rest))
  }

  predicate NoDuplicateMembers(d: Decoder, ms: Members) {
    NoDuplicates(d, ms.value) && (ms.Member? ==> NoDuplicateMembers(d, ms.rest))
  }
}
