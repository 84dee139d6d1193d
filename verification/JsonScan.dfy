/** The scanner that looks for duplicate keys in the bytes of a JSON text. */
module JsonScan {
  import opened Sequences
  import opened Options
  import opened JsonText

  // What the scanner computes, as functions from the unread bytes to the bytes left.

  predicate IsSpace(ch: char) {
    ch == ' ' || ch == '\t' || ch == '\r' || ch == '\n'
  }

  /** The scanner skips what the grammar calls whitespace. */
  lemma SpaceIsWhitespace()
    ensures forall ch: char :: IsSpace(ch) <==> IsWs(ch)
  {
    forall ch: char
      ensures IsSpace(ch) <==> IsWs(ch)
    {
      WhitespaceIs(ch);
    }
  }

  function SkipWs(s: string): (r: string)
    ensures |r| <= |s|
    ensures r != [] ==> !IsSpace(r[0])
  {
    if s != [] && IsSpace(s[0]) then SkipWs(s[1..]) else s
  }

  /** Past the closing quotation mark of a string whose opening one was read. */
  function ScanChars(s: string): (r: Option<string>)
    ensures r.Some? ==> |r.value| < |s|
  {
    if s == [] then None
    else if s[0] == '"' then Some(s[1..])
    else if s[0] != '\\' then ScanChars(s[1..])
    else if |s| < 2 then None
    else if s[1] != 'u' then ScanChars(s[2..])
    else if |s| < 6 then None
    else ScanChars(s[6..])
  }

  function ScanString(s: string): (r: Option<string>)
    ensures r.Some? ==> |r.value| < |s|
  {
    if s == [] || s[0] != '"' then None else ScanChars(s[1..])
  }

  predicate IsEnd(c: char) {
    c == ',' || c == ']' || c == '}' || IsSpace(c)
  }

  function SkipToken(s: string): (r: string)
    ensures |r| <= |s|
  {
    if s != [] && !IsEnd(s[0]) then SkipToken(s[1..]) else s
  }

  predicate Starts(s: string, c: char) {
    s != [] && s[0] == c
  }

  function ScanValue(d: Decoder, s: string): (r: Option<string>)
    ensures r.Some? ==> |r.value| <= |s|
    decreases |s|, 2
  {
    var t := SkipWs(s);
    if t == [] then None
    else if t[0] == '{' then ScanObject(d, t)
    else if t[0] == '[' then ScanArray(d, t)
    else if t[0] == '"' then ScanString(t)
    else Some(SkipToken(t))
  }

  function ScanArray(d: Decoder, s: string): (r: Option<string>)
    requires s != []
    ensures r.Some? ==> |r.value| <= |s|
    decreases |s|, 1
  {
    var t := SkipWs(s[1..]);
    if Starts(t, ']') then Some(t[1..]) else ScanItems(d, t)
  }

  function ScanItems(d: Decoder, s: string): (r: Option<string>)
    ensures r.Some? ==> |r.value| <= |s|
    decreases |s|, 3
  {
    match ScanValue(d, s)
    case None => None
    case Some(v) =>
      var t := SkipWs(v);
      if Starts(t, ']') then Some(t[1..])
      else if Starts(t, ',') then ScanItems(d, SkipWs(t[1..]))
      else None
  }

  function ScanObject(d: Decoder, s: string): (r: Option<string>)
    requires s != []
    ensures r.Some? ==> |r.value| <= |s|
    decreases |s|, 1
  {
    var t := SkipWs(s[1..]);
    if Starts(t, '}') then Some(t[1..]) else ScanMembers(d, t, [])
  }

  /** The key just scanned, unless it cannot be decoded or was there before. */
  function NewKey(d: Decoder, s: string, rest: string, keys: seq<string>): Option<string>
    requires |rest| <= |s|
  {
    match d(s[..|s| - |rest|])
    case None => None
    case Some(key) => if key in keys then None else Some(key)
  }

  function ScanMembers(d: Decoder, s: string, keys: seq<string>): (r: Option<string>)
    ensures r.Some? ==> |r.value| <= |s|
    decreases |s|, 3
  {
    match ScanString(s)
    case None => None
    case Some(k) =>
      var key := NewKey(d, s, k, keys);
      var t := SkipWs(k);
      if key.None? || !Starts(t, ':') then None
      else match ScanValue(d, t[1..])
        case None => None
        case Some(v) =>
          var u := SkipWs(v);
          if Starts(u, '}') then Some(u[1..])
          else if Starts(u, ',') then ScanMembers(d, SkipWs(u[1..]), keys + [key.value])
          else None
  }

  /** The scanner accepts the text: no duplicate key was found. */
  predicate Accepts(d: Decoder, s: string) {
    var r := ScanValue(d, s);
    r.Some? && SkipWs(r.value) == []
  }

  // The scanner on valid texts

  lemma {:induction false} SkipWsOver(ws: string, s: string)
    requires AllWs(ws)
    ensures SkipWs(ws + s) == SkipWs(s)
  {
    if ws == [] {
      assert ws + s == s;
    } else {
      assert (ws + s)[0] == ws[0];
      assert (ws + s)[1..] == ws[1..] + s;
      SkipWsOver(ws[1..], s);
    }
  }

  lemma NoWs(s: string)
    requires s != [] ==> !IsWs(s[0])
    ensures SkipWs(s) == s
  {
  }

  lemma ScanOneChar(c: StringChar, t: string)
    requires c.Valid()
    ensures ScanChars(c.Text() + t) == ScanChars(t)
  {
    var s := c.Text() + t;
    assert s[|c.Text()|..] == t;
    match c
    case Plain(_) => assert s[0] == c.c;
    case Escaped(_) => assert s[0] == '\\' && s[1] == c.c;
    case Numbered(_) => assert s[0] == '\\' && s[1] == 'u';
  }

  lemma {:induction false} ScanCharsText(cs: seq<StringChar>, post: string)
    requires ValidChars(cs)
    ensures ScanChars(CharsText(cs) + (['"'] + post)) == Some(post)
  {
    var tail := ['"'] + post;
    if cs == [] {
      assert CharsText(cs) + tail == tail;
      assert tail[1..] == post;
    } else {
      var t := CharsText(cs[1..]) + tail;
      ScanCharsText(cs[1..], post);
      Regroup(cs[0].Text(), CharsText(cs[1..]), tail);
      ScanOneChar(cs[0], t);
    }
  }

  lemma ScanStringText(cs: seq<StringChar>, post: string)
    requires ValidChars(cs)
    ensures ScanString(StringText(cs) + post) == Some(post)
    ensures (StringText(cs) + post)[..|StringText(cs) + post| - |post|] == StringText(cs)
  {
    var s := StringText(cs) + post;
    assert s[1..] == CharsText(cs) + (['"'] + post);
    ScanCharsText(cs, post);
  }

  /** Where a value ends: nothing follows, or a separator or whitespace. */
  predicate Ends(post: string) {
    post == [] || IsEnd(post[0])
  }

  predicate IsToken(s: string) {
    forall i :: 0 <= i < |s| ==> !IsEnd(s[i])
  }

  lemma {:induction false} SkipTokenOver(token: string, post: string)
    requires Ends(post) && IsToken(token)
    ensures SkipToken(token + post) == post
  {
    if token == [] {
      assert token + post == post;
    } else {
      assert (token + post)[1..] == token[1..] + post;
      SkipTokenOver(token[1..], post);
    }
  }

  lemma TokensJoin(a: string, b: string)
    requires IsToken(a) && IsToken(b)
    ensures IsToken(a + b)
  {
  }

  lemma FractionIsToken(s: string)
    requires s != [] ==> s[0] == '.' && Digits(s[1..])
    ensures IsToken(s)
  {
    if s != [] {
      assert s == [s[0]] + s[1..];
    }
  }

  lemma ExponentIsToken(s: string)
    requires s != [] ==> s[0] == 'e' || s[0] == 'E'
    requires s != [] ==> Digits(s[1..]) || (|s| > 1 && s[1] in "+-" && Digits(s[2..]))
    ensures IsToken(s)
  {
    if s != [] && Digits(s[1..]) {
      assert s == [s[0]] + s[1..];
    } else if s != [] {
      assert s == [s[0], s[1]] + s[2..];
    }
  }

  lemma ScalarIsToken(scalar: Scalar)
    requires scalar.Valid()
    ensures IsToken(scalar.Text())
    ensures scalar.Text() != [] && scalar.Text()[0] !in "{[\""
  {
    if scalar.Number? {
      var minus := if scalar.minus then "-" else "";
      FractionIsToken(scalar.fraction);
      ExponentIsToken(scalar.exponent);
      TokensJoin(minus, scalar.whole);
      TokensJoin(minus + scalar.whole, scalar.fraction);
      TokensJoin(minus + scalar.whole + scalar.fraction, scalar.exponent);
    }
  }

  /** The first byte of a value. */
  lemma ValueStarts(v: Value)
    requires ValidValue(v)
    ensures ValueText(v) != [] && !IsEnd(ValueText(v)[0])
  {
    if v.Atom? {
      ScalarIsToken(v.scalar);
    }
  }

  /** What follows a value among the items of an array, from the separator on. */
  function ItemsTail(items: Items): string {
    if items.LastItem? then [']'] else [','] + ItemsText(items.rest)
  }

  function MembersTail(ms: Members): string {
    if ms.LastMember? then ['}'] else [','] + MembersText(ms.rest)
  }

  lemma EndsAfter(ws: string, tail: string)
    requires AllWs(ws) && tail != [] && IsEnd(tail[0]) && !IsWs(tail[0])
    ensures Ends(ws + tail)
    ensures SkipWs(ws + tail) == tail
  {
    SkipWsOver(ws, tail);
    NoWs(tail);
    if ws != [] {
      assert (ws + tail)[0] == ws[0];
    }
  }

  lemma SkipBefore(ws: string, v: Value, post: string)
    requires AllWs(ws) && ValidValue(v)
    ensures SkipWs(ws + (ValueText(v) + post)) == ValueText(v) + post
    ensures (ValueText(v) + post)[0] == ValueText(v)[0]
  {
    ValueStarts(v);
    SkipWsOver(ws, ValueText(v) + post);
    NoWs(ValueText(v) + post);
  }

  lemma ItemsParts(items: Items, post: string)
    ensures ItemsText(items) + post
         == items.before + (ValueText(items.value) + (items.after + (ItemsTail(items) + post)))
  {
    hide ValueText;
    var v, t := ValueText(items.value), ItemsTail(items);
    assert ItemsText(items) == items.before + (v + (items.after + t));
    Regroup(items.after, t, post);
    Regroup(v, items.after + t, post);
    Regroup(items.before, v + (items.after + t), post);
  }

  lemma MembersParts(ms: Members, post: string)
    ensures MembersText(ms) + post
         == ms.before + (StringText(ms.key) + (ms.mid + ([':'] + (ms.gap + (ValueText(ms.value) + (ms.after + (
            MembersTail(ms) + post)))))))
  {
    hide ValueText, StringText;
    var k, v, t := StringText(ms.key), ValueText(ms.value), MembersTail(ms);
    var afterValue := ms.after + t;
    var afterColon := ms.gap + (v + afterValue);
    var afterKey := ms.mid + ([':'] + afterColon);
    assert MembersText(ms) == ms.before + (k + afterKey);
    Regroup(ms.after, t, post);
    Regroup(v, afterValue, post);
    Regroup(ms.gap, v + afterValue, post);
    Regroup([':'], afterColon, post);
    Regroup(ms.mid, [':'] + afterColon, post);
    Regroup(k, afterKey, post);
    Regroup(ms.before, k + afterKey, post);
  }

  function Answer(clean: bool, post: string): Option<string> {
    if clean then Some(post) else None
  }

  /** The keys to come can be decoded, and are new when met in order. */
  predicate AllNew(keys: seq<string>, coming: seq<Option<string>>)
    decreases coming
  {
    coming == [] || (
      coming[0].Some? && coming[0].value !in keys && AllNew(keys + [coming[0].value], coming[1..]))
  }

  lemma {:induction false} AllNewExactly(keys: seq<string>, coming: seq<Option<string>>)
    ensures AllNew(keys, coming)
       <==> AllDifferent(coming) && (forall i :: 0 <= i < |coming| ==> coming[i].value !in keys)
    decreases coming
  {
    if coming != [] && coming[0].Some? {
      var key, rest := coming[0].value, coming[1..];
      AllNewExactly(keys + [key], rest);
      assert coming == [coming[0]] + rest;
      assert AllDifferent(coming) <==>
             AllDifferent(rest) && forall i :: 0 <= i < |rest| ==> rest[i] != Some(key);
    }
  }

  lemma ScanValueAfterWs(d: Decoder, ws: string, s: string)
    requires AllWs(ws)
    ensures ScanValue(d, ws + s) == ScanValue(d, s)
  {
    SkipWsOver(ws, s);
  }

  /** On a value the scanner stops where the value ends, unless some key is there twice. */
  lemma {:induction false} ScanValueText(d: Decoder, v: Value, post: string)
    requires ValidValue(v) && Ends(post)
    ensures ScanValue(d, ValueText(v) + post) == Answer(NoDuplicates(d, v), post)
    decreases v, 0
  {
    var s := ValueText(v) + post;
    ValueStarts(v);
    NoWs(s);
    match v
    case Atom(scalar) =>
      ScalarIsToken(scalar);
      SkipTokenOver(scalar.Text(), post);
    case Str(cs) =>
      ScanStringText(cs, post);
    case EmptyArray(ws) =>
      ScanEmpty(ws, ']', post);
      Regroup(['['], ws + [']'], post);
    case EmptyObject(ws) =>
      ScanEmpty(ws, '}', post);
      Regroup(['{'], ws + ['}'], post);
    case Array(items) =>
      Regroup(['['], ItemsText(items), post);
      ItemsStart(items, post);
      ScanItemsText(d, items, post);
    case Object(members) =>
      Regroup(['{'], MembersText(members), post);
      MembersStart(members, post);
      AllNewExactly([], Keys(d, members));
      ScanMembersText(d, members, post, []);
  }

  lemma ScanEmpty(ws: string, close: char, post: string)
    requires AllWs(ws) && !IsWs(close)
    ensures SkipWs((ws + [close]) + post) == [close] + post
    ensures ([close] + post)[1..] == post
  {
    Regroup(ws, [close], post);
    SkipWsOver(ws, [close] + post);
    NoWs([close] + post);
  }

  lemma ItemsStart(items: Items, post: string)
    requires ValidItems(items)
    ensures SkipWs(ItemsText(items) + post)
         == ValueText(items.value) + (items.after + (ItemsTail(items) + post))
    ensures !Starts(SkipWs(ItemsText(items) + post), ']')
  {
    hide ValueText, ItemsTail, ItemsText;
    ItemsParts(items, post);
    var rest := items.after + (ItemsTail(items) + post);
    SkipBefore(items.before, items.value, rest);
    ValueStarts(items.value);
  }

  lemma MembersStart(ms: Members, post: string)
    requires ValidMembers(ms)
    ensures SkipWs(MembersText(ms) + post)
         == StringText(ms.key) + (ms.mid + ([':'] + (ms.gap + (ValueText(ms.value) + (ms.after + (
            MembersTail(ms) + post))))))
    ensures !Starts(SkipWs(MembersText(ms) + post), '}')
  {
    hide ValueText, MembersTail, MembersText;
    MembersParts(ms, post);
    var afterKey := ms.mid + ([':'] + (ms.gap + (ValueText(ms.value) + (ms.after + (MembersTail(ms) + post)))));
    SkipWsOver(ms.before, StringText(ms.key) + afterKey);
    NoWs(StringText(ms.key) + afterKey);
  }

  lemma {:induction false} ScanItemsText(d: Decoder, items: Items, post: string)
    requires ValidItems(items)
    ensures ScanItems(d, SkipWs(ItemsText(items) + post)) == Answer(NoDuplicateItems(d, items), post)
    decreases items, 1
  {
    hide ValueText, ItemsText, NoDuplicates, ScanValue;
    var tail := ItemsTail(items) + post;
    ItemsStart(items, post);
    EndsAfter(items.after, tail);
    ScanValueText(d, items.value, items.after + tail);
    if items.Item? {
      Regroup([','], ItemsText(items.rest), post);
      ScanItemsText(d, items.rest, post);
      assert tail[1..] == ItemsText(items.rest) + post;
    } else {
      assert tail[1..] == post;
    }
  }

  /** One member, given where its parts end. */
  lemma OneMember(d: Decoder, s: string, keys: seq<string>, k: string, t: string, clean: bool, u: string, tail: string)
    requires ScanString(s) == Some(k) && SkipWs(k) == [':'] + t
    requires ScanValue(d, t) == Answer(clean, u) && SkipWs(u) == tail
    requires Starts(tail, '}') || Starts(tail, ',')
    ensures ScanMembers(d, s, keys) ==
            var key := NewKey(d, s, k, keys);
            if key.None? || !clean then None
            else if Starts(tail, '}') then Some(tail[1..])
            else ScanMembers(d, SkipWs(tail[1..]), keys + [key.value])
  {
    hide ScanString, ScanValue, SkipWs, NewKey;
    assert ([':'] + t)[1..] == t;
  }

  lemma AllNewOne(keys: seq<string>, coming: seq<Option<string>>)
    requires coming != []
    ensures AllNew(keys, coming) <==>
            (&& coming[0].Some? && coming[0].value !in keys
             && (coming[1..] == [] || AllNew(keys + [coming[0].value], coming[1..])))
  {
  }

  lemma KeysInOrder(d: Decoder, ms: Members)
    ensures Keys(d, ms) != [] && Keys(d, ms)[0] == d(StringText(ms.key))
    ensures Keys(d, ms)[1..] == if ms.LastMember? then [] else Keys(d, ms.rest)
  {
  }

  lemma {:induction false} ScanMembersText(d: Decoder, ms: Members, post: string, keys: seq<string>)
    requires ValidMembers(ms)
    ensures ScanMembers(d, SkipWs(MembersText(ms) + post), keys)
         == Answer(AllNew(keys, Keys(d, ms)) && NoDuplicateMembers(d, ms), post)
    decreases ms, 1
  {
    hide ValueText, MembersText, StringText, NoDuplicates, ScanMembers, ScanValue, ScanString, SkipWs, Keys, AllNew;
    var tail := MembersTail(ms) + post;
    var afterColon := ms.gap + (ValueText(ms.value) + (ms.after + tail));
    var afterKey := ms.mid + ([':'] + afterColon);
    var s := StringText(ms.key) + afterKey;
    MembersStart(ms, post);
    ScanStringText(ms.key, afterKey);
    SkipWsOver(ms.mid, [':'] + afterColon);
    NoWs([':'] + afterColon);
    EndsAfter(ms.after, tail);
    ScanValueAfterWs(d, ms.gap, ValueText(ms.value) + (ms.after + tail));
    ScanValueText(d, ms.value, ms.after + tail);
    OneMember(d, s, keys, afterKey, afterColon, NoDuplicates(d, ms.value), ms.after + tail, tail);
    KeysInOrder(d, ms);
    var key := Keys(d, ms)[0];
    assert NewKey(d, s, afterKey, keys) == if key.Some? && key.value !in keys then key else None;
    AllNewOne(keys, Keys(d, ms));
    if ms.LastMember? {
      assert tail[1..] == post;
      assert NoDuplicateMembers(d, ms) == NoDuplicates(d, ms.value);
    } else {
      Regroup([','], MembersText(ms.rest), post);
      assert tail[1..] == MembersText(ms.rest) + post;
      assert NoDuplicateMembers(d, ms) == (NoDuplicates(d, ms.value) && NoDuplicateMembers(d, ms.rest));
      KeysInOrder(d, ms.rest);
      if key.Some? && key.value !in keys {
        ScanMembersText(d, ms.rest, post, keys + [key.value]);
      }
    }
  }

  /** On every JSON text the scanner finds duplicate keys exactly when some object has them. */
  lemma DuplicatesAreFound(d: Decoder, before: string, v: Value, after: string)
    requires AllWs(before) && ValidValue(v) && AllWs(after)
    ensures Accepts(d, before + (ValueText(v) + after)) <==> NoDuplicates(d, v)
  {
    hide ValueText, ScanValue, NoDuplicates;
    ScanValueAfterWs(d, before, ValueText(v) + after);
    ScanValueText(d, v, after);
    assert after + [] == after;
    SkipWsOver(after, []);
  }

  lemma AcceptsIs(d: Decoder, s: string)
    ensures Accepts(d, s) <==> ScanValue(d, s).Some? && SkipWs(ScanValue(d, s).value) == []
  {
  }

  /** Named by their numbers: any whitespace around an empty object is read over. */
  lemma EmptyObjectIsAccepted(d: Decoder, before: string, after: string)
    requires forall i :: 0 <= i < |before| ==> before[i] as int in {0x20, 0x09, 0x0a, 0x0d}
    requires forall i :: 0 <= i < |after| ==> after[i] as int in {0x20, 0x09, 0x0a, 0x0d}
    ensures Accepts(d, before + ("{}" + after))
  {
    assert ValueText(EmptyObject([])) == "{}";
    DuplicatesAreFound(d, before, EmptyObject([]), after);
  }

  // The scanner itself

  lemma Drop(s: string, a: nat, b: nat)
    requires a + b <= |s|
    ensures s[a..][b..] == s[a + b..]
  {
  }

  lemma ScanCharsSteps(s: string)
    requires s != []
    ensures s[0] != '"' && s[0] != '\\' ==> ScanChars(s) == ScanChars(s[1..])
    ensures s[0] == '"' ==> ScanChars(s) == Some(s[1..])
    ensures s[0] == '\\' && |s| == 1 ==> ScanChars(s) == None
    ensures s[0] == '\\' && |s| > 1 && s[1] != 'u' ==> ScanChars(s) == ScanChars(s[1..][1..])
    ensures s[0] == '\\' && |s| > 1 && s[1] == 'u' && |s| < 6 ==> ScanChars(s) == None
    ensures s[0] == '\\' && |s| >= 6 && s[1] == 'u' ==> ScanChars(s) == ScanChars(s[1..][1..][4..])
  {
    if |s| > 1 {
      Drop(s, 1, 1);
    }
    if |s| >= 6 {
      Drop(s, 2, 4);
    }
  }

  class Scanner {
    const data: string
    const decode: Decoder
    var pos: nat

    constructor (data: string, decode: Decoder)
      ensures this.data == data && this.decode == decode && pos == 0
    {
      this.data := data;
      this.decode := decode;
      pos := 0;
    }

    predicate Valid()
      reads this
    {
      pos <= |data|
    }

    /** The bytes not yet scanned. */
    function Rest(): string
      requires Valid()
      reads this
    {
      data[pos..]
    }

    predicate At(c: char)
      reads this
    {
      pos < |data| && data[pos] == c
    }

    /** The scan succeeded exactly when the function does, and stands where it says. */
    predicate Did(ok: bool, r: Option<string>)
      reads this
    {
      && Valid()
      && ok == r.Some?
      && (ok ==> Rest() == r.value)
    }

    method Advance()
      requires Valid() && pos < |data|
      modifies this
      ensures Valid() && pos == old(pos) + 1 && Rest() == old(Rest()[1..])
    {
      assert Rest()[1..] == data[pos + 1..];
      pos := pos + 1;
    }

    method ScanWhitespace()
      requires Valid()
      modifies this
      ensures Valid() && Rest() == SkipWs(old(Rest())) && old(pos) <= pos
    {
      while pos < |data|
        invariant old(pos) <= pos <= |data|
        invariant SkipWs(Rest()) == SkipWs(old(Rest()))
        decreases |data| - pos
      {
        if data[pos] != ' ' && data[pos] != '\t' && data[pos] != '\r' && data[pos] != '\n' {
          break;
        }
        assert Rest()[1..] == data[pos + 1..];
        pos := pos + 1;
      }
    }

    /** Also says where the literal begins and how long it is. */
    method ScanLiteral() returns (ok: bool, start: nat, len: nat)
      requires Valid()
      modifies this
      ensures old(pos) <= pos && Did(ok, ScanString(old(Rest())))
      ensures ok ==> start == old(pos) < pos && len == pos - start
    {
      start, len := pos, 0;
      if !At('"') {
        return false, start, len;
      }
      Advance();
      while pos < |data|
        invariant start < pos <= |data|
        invariant ScanChars(Rest()) == ScanString(old(Rest()))
        decreases |data| - pos
      {
        ScanCharsSteps(Rest());
        var ch := data[pos];
        Advance();
        if ch == '"' {
          return true, start, pos - start;
        }
        if ch == '\\' {
          if pos >= |data| {
            return false, start, len;
          }
          var escaped := data[pos];
          Advance();
          if escaped == 'u' {
            if |data| - pos < 4 {
              return false, start, len;
            }
            Drop(data, pos, 4);
            pos := pos + 4;
          }
        }
      }
      ok := false;
    }

    method ScanArrayHere() returns (ok: bool)
      requires Valid() && pos < |data|
      modifies this
      ensures old(pos) < pos && Did(ok, ScanArray(decode, old(Rest())))
      decreases |data| - pos, 1
    {
      hide ScanValue, SkipWs;
      Advance();
      ScanWhitespace();
      if At(']') {
        Advance();
        return true;
      }
      while true
        invariant old(pos) < pos <= |data|
        invariant ScanItems(decode, Rest()) == ScanArray(decode, old(Rest()))
        decreases |data| - pos
      {
        ok := ScanValueHere();
        if !ok {
          return false;
        }
        ScanWhitespace();
        if pos >= |data| {
          return false;
        }
        if At(']') {
          Advance();
          return true;
        }
        if !At(',') {
          return false;
        }
        Advance();
        ScanWhitespace();
      }
    }

    method ScanObjectHere() returns (ok: bool)
      requires Valid() && pos < |data|
      modifies this
      ensures old(pos) < pos && Did(ok, ScanObject(decode, old(Rest())))
      decreases |data| - pos, 1
    {
      hide ScanValue, SkipWs, ScanString, NewKey;
      var keys: seq<string> := [];
      Advance();
      ScanWhitespace();
      if At('}') {
        Advance();
        return true;
      }
      while true
        invariant old(pos) < pos <= |data|
        invariant ScanMembers(decode, Rest(), keys) == ScanObject(decode, old(Rest()))
        decreases |data| - pos
      {
        var scanned, key := ScanKey(keys);
        if !scanned {
          return false;
        }
        keys := keys + [key];
        ScanWhitespace();
        if !At(':') {
          return false;
        }
        Advance();
        ok := ScanValueHere();
        if !ok {
          return false;
        }
        ScanWhitespace();
        if pos >= |data| {
          return false;
        }
        if At('}') {
          Advance();
          return true;
        }
        if !At(',') {
          return false;
        }
        Advance();
        ScanWhitespace();
      }
    }

    /** Scans a key, decodes it and compares it with those before. */
    method ScanKey(keys: seq<string>) returns (ok: bool, key: string)
      requires Valid()
      modifies this
      ensures old(pos) <= pos && Valid() && (ok ==> old(pos) < pos)
      ensures var r := ScanString(old(Rest()));
              ok == (r.Some? && NewKey(decode, old(Rest()), r.value, keys).Some?)
              && (ok ==> Rest() == r.value && NewKey(decode, old(Rest()), r.value, keys) == Some(key))
    {
      key := [];
      var scanned, start, len := ScanLiteral();
      if !scanned {
        return false, key;
      }
      assert data[start..start + len] == old(Rest())[..len];
      var decoded := decode(data[start..start + len]);
      if decoded.None? {
        return false, key;
      }
      for index := 0 to |keys|
        invariant forall i :: 0 <= i < index ==> keys[i] != decoded.value
      {
        if keys[index] == decoded.value {
          return false, key;
        }
      }
      return true, decoded.value;
    }

    method ScanValueHere() returns (ok: bool)
      requires Valid()
      modifies this
      ensures old(pos) <= pos && Did(ok, ScanValue(decode, old(Rest())))
      decreases |data| - pos, 2
    {
      ScanWhitespace();
      if pos >= |data| {
        return false;
      }
      match data[pos]
      case '{' => ok := ScanObjectHere();
      case '[' => ok := ScanArrayHere();
      case '"' =>
        var start, len;
        ok, start, len := ScanLiteral();
      case _ =>
        ghost var here := Rest();
        while pos < |data|
          invariant old(pos) <= pos <= |data|
          invariant SkipToken(Rest()) == SkipToken(here)
          decreases |data| - pos
        {
          var ch := data[pos];
          if ch == ',' || ch == ']' || ch == '}' || ch == ' ' || ch == '\t' || ch == '\r' || ch == '\n' {
            break;
          }
          Advance();
        }
        ok := true;
    }
  }

  /** Ends on every input, and reads no byte past the last. */
  method DuplicateKeysFound(data: string, decode: Decoder) returns (found: bool)
    ensures found == !Accepts(decode, data)
    ensures forall before: string, after: string ::
              data == before + ("{}" + after)
              && (forall i :: 0 <= i < |before| ==> before[i] as int in {0x20, 0x09, 0x0a, 0x0d})
              && (forall i :: 0 <= i < |after| ==> after[i] as int in {0x20, 0x09, 0x0a, 0x0d})
              ==> !found
  {
    forall before: string, after: string |
      data == before + ("{}" + after)
      && (forall i :: 0 <= i < |before| ==> before[i] as int in {0x20, 0x09, 0x0a, 0x0d})
      && (forall i :: 0 <= i < |after| ==> after[i] as int in {0x20, 0x09, 0x0a, 0x0d})
      ensures Accepts(decode, data)
    {
      EmptyObjectIsAccepted(decode, before, after);
    }
    hide Accepts;
    AcceptsIs(decode, data);
    var scan := new Scanner(data, decode);
    assert data[0..] == data;
    var ok := scan.ScanValueHere();
    if !ok {
      return true;
    }
    scan.ScanWhitespace();
    found := scan.pos != |data|;
  }
}
