/**
 The documents that are accepted, described by a grammar: an array of objects, or an object with
 distinct keys and exactly one ROA array, with blanks between the parts and nothing else around it.
 A value is a well-nested group, a quoted string or a bare word.  The grammar says nothing about
 scanning or order of reading; the export is accepted exactly when it is a document of this grammar,
 and yields exactly its entries.
 */
module VrpGrammar {
  import opened Basics
  import opened Wrappers
  import opened VrpText
  import N = VrpNesting

  /** A value between blanks. */
  datatype Item = Item(before: string, text: string, after: string)

  datatype Array = EmptyArray(inner: string) | Filled(items: seq<Item>)

  /** The body of a member: metadata, or the ROA array. */
  datatype Content = Meta(item: Item) | RoaArray(before: string, roas: Array, after: string)

  datatype Member = Member(before: string, key: string, gap: string, body: Content)

  datatype Doc =
    ArrayDoc(before: string, roas: Array, after: string)
    | ObjectDoc(before: string, members: seq<Member>, after: string)

  // ---- Text ----

  /** Items up to and including the closing bracket, followed by `rest`. */
  function ItemsText(items: seq<Item>, rest: string): string
    requires items != []
  {
    var tail := if |items| == 1 then "]" + rest else "," + ItemsText(items[1..], rest);
    items[0].before + (items[0].text + (items[0].after + tail))
  }

  function ArrayText(a: Array, rest: string): string
    requires a.Filled? ==> a.items != []
  {
    "[" + match a case EmptyArray(inner) => inner + ("]" + rest) case Filled(items) => ItemsText(items, rest)
  }

  predicate NonEmpty(b: Content) { b.RoaArray? && b.roas.Filled? ==> b.roas.items != [] }

  function BodyText(b: Content, rest: string): string
    requires NonEmpty(b)
  {
    match b
    case Meta(i) => i.before + (i.text + (i.after + rest))
    case RoaArray(before, roas, after) => before + ArrayText(roas, after + rest)
  }

  /** Members up to and including the closing brace, followed by `rest`. */
  function MembersText(ms: seq<Member>, rest: string): string
    requires ms != [] && forall i :: 0 <= i < |ms| ==> NonEmpty(ms[i].body)
  {
    var tail := if |ms| == 1 then "}" + rest else "," + MembersText(ms[1..], rest);
    ms[0].before + (ms[0].key + (ms[0].gap + (":" + BodyText(ms[0].body, tail))))
  }

  // ---- Well-formed documents ----

  predicate Blanks(s: string) { forall i :: 0 <= i < |s| ==> N.Space(s[i]) }

  /** One complete value, and what it decodes to. */
  ghost predicate Unit(env: Env, text: string, v: Json) {
    N.Whole(env, text) && env.decode(text) == Some(v)
  }

  ghost predicate Decodes(env: Env, text: string) { env.decode(text).Some? && Unit(env, text, env.decode(text).value) }

  ghost predicate GoodItem(env: Env, i: Item) { Blanks(i.before) && Blanks(i.after) && Decodes(env, i.text) }

  ghost predicate GoodEntry(env: Env, i: Item) { GoodItem(env, i) && env.decode(i.text).value.JObject? }

  ghost predicate GoodArray(env: Env, a: Array) {
    match a
    case EmptyArray(inner) => Blanks(inner)
    case Filled(items) => items != [] && forall k :: 0 <= k < |items| ==> GoodEntry(env, items[k])
  }

  ghost predicate GoodBody(env: Env, key: string, b: Content) {
    match b
    case Meta(i) => key != "roas" && GoodItem(env, i)
    case RoaArray(before, roas, after) => key == "roas" && Blanks(before) && Blanks(after) && GoodArray(env, roas)
  }

  ghost predicate GoodKey(env: Env, m: Member) {
    Blanks(m.before) && Blanks(m.gap) && Decodes(env, m.key) && env.decode(m.key).value.JString?
  }

  function KeyOf(env: Env, m: Member): string
    requires GoodKey(env, m)
  {
    env.decode(m.key).value.s
  }

  /** What has been seen of the object after one more member. */
  function Next(env: Env, m: Member, h: Header): Header
    requires GoodKey(env, m)
  {
    After(h, KeyOf(env, m))
  }

  /** Keys are new, fit the key budget, and decide what their body is. */
  ghost predicate GoodMembers(env: Env, ms: seq<Member>, h: Header) {
    ms != [] ==> GoodMember(env, ms[0], h) && GoodMembers(env, ms[1..], Next(env, ms[0], h))
  }

  ghost predicate GoodMember(env: Env, m: Member, h: Header) {
    && GoodKey(env, m) && KeyOf(env, m) !in h.seen && h.keyMemory + KeyCost(KeyOf(env, m)) <= env.cap
    && GoodBody(env, KeyOf(env, m), m.body)
  }

  const FIRST := Header({}, 0, false)

  predicate HasRoas(ms: seq<Member>) { exists k :: 0 <= k < |ms| && ms[k].body.RoaArray? }

  /** Members one by one: each key is a string, and decides what its body is. */
  ghost predicate GoodEach(env: Env, ms: seq<Member>) {
    forall i :: 0 <= i < |ms| ==> GoodKey(env, ms[i]) && GoodBody(env, KeyOf(env, ms[i]), ms[i].body)
  }

  ghost predicate KeysDiffer(env: Env, ms: seq<Member>)
    requires GoodEach(env, ms)
  {
    forall i, j :: 0 <= i < j < |ms| ==> KeyOf(env, ms[i]) != KeyOf(env, ms[j])
  }

  /** The characters of all keys together. */
  function KeyChars(env: Env, ms: seq<Member>): nat
    requires GoodEach(env, ms)
  {
    if ms == [] then 0 else assert GoodKey(env, ms[0]); |KeyOf(env, ms[0])| + KeyChars(env, ms[1..])
  }

  /** The memory that the keys are charged with. */
  function KeyMemory(env: Env, ms: seq<Member>): nat
    requires GoodEach(env, ms)
  {
    128 * |ms| + 4 * KeyChars(env, ms)
  }

  /** An object: good members with distinct keys, one of them the ROA array. */
  ghost predicate GoodObject(env: Env, ms: seq<Member>) {
    ms != [] && GoodEach(env, ms) && KeysDiffer(env, ms) && HasRoas(ms)
  }

  ghost predicate Good(env: Env, d: Doc) {
    match d
    case ArrayDoc(before, roas, after) => Blanks(before) && Blanks(after) && GoodArray(env, roas)
    case ObjectDoc(before, ms, after) =>
      Blanks(before) && Blanks(after) && GoodObject(env, ms) && KeyMemory(env, ms) <= env.cap
  }

  ghost predicate KeysNew(env: Env, ms: seq<Member>, h: Header)
    requires GoodEach(env, ms)
  {
    forall i :: 0 <= i < |ms| ==> KeyOf(env, ms[i]) !in h.seen
  }

  /** Good together, after what has been seen. */
  ghost predicate GoodTogether(env: Env, ms: seq<Member>, h: Header) {
    && GoodEach(env, ms) && KeysDiffer(env, ms) && KeysNew(env, ms, h)
    && (ms == [] || h.keyMemory + KeyMemory(env, ms) <= env.cap)
  }

  lemma EachOfLater(env: Env, ms: seq<Member>)
    requires ms != []
    ensures GoodEach(env, ms)
       <==> GoodKey(env, ms[0]) && GoodBody(env, KeyOf(env, ms[0]), ms[0].body) && GoodEach(env, ms[1..])
  {
    assert forall i :: 0 <= i < |ms[1..]| ==> ms[1..][i] == ms[i + 1];
    if GoodKey(env, ms[0]) && GoodBody(env, KeyOf(env, ms[0]), ms[0].body) && GoodEach(env, ms[1..]) {
      forall i | 0 <= i < |ms| ensures GoodKey(env, ms[i]) && GoodBody(env, KeyOf(env, ms[i]), ms[i].body) {
        if i > 0 { assert ms[i] == ms[1..][i - 1]; }
      }
    }
  }

  lemma DifferFromFirst(env: Env, ms: seq<Member>, h: Header)
    requires ms != [] && GoodEach(env, ms) && GoodEach(env, ms[1..])
    ensures KeysDiffer(env, ms) && KeysNew(env, ms, h)
       <==> KeyOf(env, ms[0]) !in h.seen && KeysDiffer(env, ms[1..]) && KeysNew(env, ms[1..], Next(env, ms[0], h))
  {
    var later, h' := ms[1..], Next(env, ms[0], h);
    assert forall i :: 0 <= i < |later| ==> later[i] == ms[i + 1];
    if KeyOf(env, ms[0]) !in h.seen && KeysDiffer(env, later) && KeysNew(env, later, h') {
      forall i | 0 <= i < |ms| ensures KeyOf(env, ms[i]) !in h.seen {
        if i > 0 { assert KeyOf(env, later[i - 1]) !in h'.seen; }
      }
      forall i, j | 0 <= i < j < |ms| ensures KeyOf(env, ms[i]) != KeyOf(env, ms[j]) {
        assert KeyOf(env, later[j - 1]) !in h'.seen;
        if i > 0 { assert KeyOf(env, later[i - 1]) != KeyOf(env, later[j - 1]); }
      }
    }
  }

  /** Going through the members one by one, with what has been seen, asks no more and no less. */
  lemma {:induction false} MembersTogether(env: Env, ms: seq<Member>, h: Header)
    ensures GoodMembers(env, ms, h) <==> GoodTogether(env, ms, h)
    decreases |ms|
  {
    if ms != [] {
      EachOfLater(env, ms);
      if GoodKey(env, ms[0]) {
        MembersTogether(env, ms[1..], Next(env, ms[0], h));
        if GoodEach(env, ms) {
          DifferFromFirst(env, ms, h);
          MemoryOfFirst(env, ms);
        }
      }
    }
  }

  lemma MemoryOfFirst(env: Env, ms: seq<Member>)
    requires ms != [] && GoodEach(env, ms) && GoodEach(env, ms[1..])
    ensures KeyMemory(env, ms) == 128 + 4 * |KeyOf(env, ms[0])| + KeyMemory(env, ms[1..])
  {
  }

  lemma {:induction false} GoodMembersHaveText(env: Env, ms: seq<Member>, h: Header)
    requires GoodMembers(env, ms, h)
    ensures forall i :: 0 <= i < |ms| ==> NonEmpty(ms[i].body)
  {
    if ms != [] {
      GoodMembersHaveText(env, ms[1..], Next(env, ms[0], h));
      forall i | 0 <= i < |ms| ensures NonEmpty(ms[i].body) {
        if i > 0 { assert ms[i] == ms[1..][i - 1]; }
      }
    }
  }

  function DocText(env: Env, d: Doc): string
    requires Good(env, d)
  {
    match d
    case ArrayDoc(before, roas, after) => before + ArrayText(roas, after)
    case ObjectDoc(before, ms, after) =>
      before + ("{" + MembersText(ms, after))
  }

  // ---- Entries ----

  function ItemValues(env: Env, items: seq<Item>): seq<Json>
    requires forall k :: 0 <= k < |items| ==> GoodEntry(env, items[k])
  {
    if items == [] then []
    else assert GoodEntry(env, items[0]); [env.decode(items[0].text).value] + ItemValues(env, items[1..])
  }

  function ArrayValues(env: Env, a: Array): seq<Json>
    requires GoodArray(env, a)
  {
    match a case EmptyArray(_) => [] case Filled(items) => ItemValues(env, items)
  }

  function BodyValues(env: Env, key: string, b: Content): seq<Json>
    requires GoodBody(env, key, b)
  {
    match b case Meta(_) => [] case RoaArray(_, roas, _) => ArrayValues(env, roas)
  }

  function MemberValues(env: Env, ms: seq<Member>, h: Header): seq<Json>
    requires GoodMembers(env, ms, h)
  {
    if ms == [] then []
    else BodyValues(env, KeyOf(env, ms[0]), ms[0].body) + MemberValues(env, ms[1..], Next(env, ms[0], h))
  }

  /** The entries of the ROA array among members that are each good. */
  function RoaValues(env: Env, ms: seq<Member>): seq<Json>
    requires GoodEach(env, ms)
  {
    if ms == [] then []
    else
      assert GoodBody(env, KeyOf(env, ms[0]), ms[0].body);
      BodyValues(env, KeyOf(env, ms[0]), ms[0].body) + RoaValues(env, ms[1..])
  }

  lemma {:induction false} ValuesOfMembers(env: Env, ms: seq<Member>, h: Header)
    requires GoodMembers(env, ms, h) && GoodEach(env, ms)
    ensures MemberValues(env, ms, h) == RoaValues(env, ms)
    decreases |ms|
  {
    if ms != [] { ValuesOfMembers(env, ms[1..], Next(env, ms[0], h)); }
  }

  /** The entries of the ROA array. */
  function Entries(env: Env, d: Doc): seq<Json>
    requires Good(env, d)
  {
    match d
    case ArrayDoc(_, roas, _) => ArrayValues(env, roas)
    case ObjectDoc(_, ms, _) => RoaValues(env, ms)
  }

  lemma {:induction false} SeenKeysDoNotRecur(env: Env, ms: seq<Member>, h: Header, k: nat)
    requires GoodMembers(env, ms, h) && k < |ms|
    ensures GoodKey(env, ms[k]) && KeyOf(env, ms[k]) !in h.seen
    ensures ms[k].body.RoaArray? <==> KeyOf(env, ms[k]) == "roas"
  {
    if k > 0 {
      SeenKeysDoNotRecur(env, ms[1..], Next(env, ms[0], h), k - 1);
      assert ms[k] == ms[1..][k - 1];
    }
  }

  /** Keys are pairwise distinct, so an accepted object has exactly one ROA array. */
  lemma {:induction false} KeysAreDistinct(env: Env, ms: seq<Member>, h: Header, i: nat, j: nat)
    requires GoodMembers(env, ms, h) && i < j < |ms|
    ensures GoodKey(env, ms[i]) && GoodKey(env, ms[j]) && KeyOf(env, ms[i]) != KeyOf(env, ms[j])
    ensures !(ms[i].body.RoaArray? && ms[j].body.RoaArray?)
  {
    assert ms[j] == ms[1..][j - 1];
    if i == 0 {
      SeenKeysDoNotRecur(env, ms[1..], Next(env, ms[0], h), j - 1);
    } else {
      assert ms[i] == ms[1..][i - 1];
      KeysAreDistinct(env, ms[1..], Next(env, ms[0], h), i - 1, j - 1);
    }
  }

  // ---- Every document of the grammar is accepted ----

  lemma {:induction false} SkipsBlanks(b: string, rest: string)
    requires Blanks(b)
    ensures SkipBlanks(b + rest) == SkipBlanks(rest)
  {
    if b == "" {
      assert b + rest == rest;
    } else {
      assert (b + rest)[0] == b[0] && (b + rest)[1..] == b[1..] + rest;
      SkipsBlanks(b[1..], rest);
    }
  }

  lemma SkipsTo(b: string, c: char, rest: string)
    requires Blanks(b) && !Blank(c)
    ensures SkipBlanks(b + ([c] + rest)) == [c] + rest
  {
    SkipsBlanks(b, [c] + rest);
  }

  lemma UnitTaken(env: Env, before: string, text: string, v: Json, rest: string)
    requires env.cap >= 256 && Blanks(before) && Unit(env, text, v) && N.Delimits(env, rest)
    ensures Value(env, before + (text + rest)) == Some(Taken(v, rest))
  {
    SkipsBlanks(before, text + rest);
    N.WholeIsFramed(env, text, rest);
    assert (text + rest)[0] == text[0];
    assert SkipBlanks(text + rest) == text + rest;
    assert (text + rest)[..|text|] == text && (text + rest)[|text|..] == rest;
  }

  lemma DelimitsAfter(env: Env, b: string, c: char, rest: string)
    requires Blanks(b) && N.EndsWord(c)
    ensures N.Delimits(env, b + ([c] + rest))
  {
    if b != "" { assert (b + ([c] + rest))[0] == b[0]; }
  }

  lemma ItemsSkipBlanks(env: Env, rest: string, acc: seq<Json>)
    ensures Items(env, SkipBlanks(rest), acc) == Items(env, rest, acc)
  {
    SkipBlanksTwice(rest);
    assert Value(env, SkipBlanks(rest)) == Value(env, rest);
  }

  lemma AfterClosed(close: char, b: string, rest: string)
    requires Blanks(b) && Closing(close)
    ensures AfterItem(close, b + ([close] + rest)) == Closed(rest)
  {
    SkipsTo(b, close, rest);
    assert ([close] + rest)[1..] == rest;
  }

  lemma AfterComma(close: char, b: string, more: string)
    requires Blanks(b) && Closing(close) && !At(SkipBlanks(more), close)
    ensures AfterItem(close, b + ("," + more)) == Another(SkipBlanks(more))
  {
    SkipsTo(b, ',', more);
    assert ([','] + more)[1..] == more;
  }

  /** A text that starts with blanks and a complete value does not start with a closing bracket. */
  lemma StartsWithUnit(env: Env, before: string, text: string, v: Json, rest: string, close: char)
    requires env.cap >= 256 && Blanks(before) && Unit(env, text, v) && Closing(close)
    ensures !At(SkipBlanks(before + (text + rest)), close)
  {
    SkipsBlanks(before, text + rest);
    N.WholeStarts(env, text);
    assert (text + rest)[0] == text[0];
  }

  lemma {:induction false} ItemsAccepted(env: Env, items: seq<Item>, rest: string, acc: seq<Json>)
    requires env.cap >= 256 && items != [] && forall k :: 0 <= k < |items| ==> GoodEntry(env, items[k])
    ensures Items(env, ItemsText(items, rest), acc) == Parsed(acc + ItemValues(env, items), Some(rest))
    decreases |items|
  {
    var i := items[0];
    assert GoodEntry(env, i);
    var v := env.decode(i.text).value;
    if |items| == 1 {
      var tail := "]" + rest;
      DelimitsAfter(env, i.after, ']', rest);
      UnitTaken(env, i.before, i.text, v, i.after + tail);
      AfterClosed(']', i.after, rest);
      assert ItemValues(env, items) == [v];
    } else {
      var next := items[1];
      assert GoodEntry(env, next) && items[1..][0] == next;
      var more := ItemsText(items[1..], rest);
      DelimitsAfter(env, i.after, ',', more);
      UnitTaken(env, i.before, i.text, v, i.after + ("," + more));
      NextItem(env, items[1..], rest);
      AfterComma(']', i.after, more);
      ItemsSkipBlanks(env, more, acc + [v]);
      ItemsAccepted(env, items[1..], rest, acc + [v]);
      Assoc(acc, [v], ItemValues(env, items[1..]));
    }
  }

  lemma NextItem(env: Env, items: seq<Item>, rest: string)
    requires env.cap >= 256 && items != [] && GoodEntry(env, items[0])
    ensures !At(SkipBlanks(ItemsText(items, rest)), ']')
  {
    var i := items[0];
    var tail := if |items| == 1 then "]" + rest else "," + ItemsText(items[1..], rest);
    StartsWithUnit(env, i.before, i.text, env.decode(i.text).value, i.after + tail, ']');
  }

  lemma RoasAccepted(env: Env, b: string, a: Array, rest: string, acc: seq<Json>)
    requires env.cap >= 256 && Blanks(b) && GoodArray(env, a)
    ensures Roas(env, b + ArrayText(a, rest), acc) == Parsed(acc + ArrayValues(env, a), Some(rest))
  {
    match a
    case EmptyArray(inner) =>
      SkipsTo(b, '[', inner + ("]" + rest));
      assert (['['] + (inner + ("]" + rest)))[1..] == inner + ("]" + rest);
      SkipsTo(inner, ']', rest);
      assert ([']'] + rest)[1..] == rest && acc + [] == acc;
    case Filled(items) =>
      var more := ItemsText(items, rest);
      SkipsTo(b, '[', more);
      assert (['['] + more)[1..] == more;
      assert GoodEntry(env, items[0]);
      NextItem(env, items, rest);
      ItemsSkipBlanks(env, more, acc);
      ItemsAccepted(env, items, rest, acc);
  }

  /** The blanks after a member's body. */
  function Trailing(b: Content): string {
    match b case Meta(i) => i.after case RoaArray(_, _, after) => after
  }

  lemma BodyAccepted(env: Env, key: string, b: Content, rest: string, acc: seq<Json>)
    requires env.cap >= 256 && GoodBody(env, key, b) && N.Delimits(env, Trailing(b) + rest)
    ensures VrpText.Body(env, key, BodyText(b, rest), acc)
         == Parsed(acc + BodyValues(env, key, b), Some(Trailing(b) + rest))
  {
    match b
    case Meta(i) =>
      UnitTaken(env, i.before, i.text, env.decode(i.text).value, i.after + rest);
      assert acc + [] == acc;
    case RoaArray(before, roas, after) =>
      RoasAccepted(env, before, roas, after + rest, acc);
  }

  lemma KeyAccepted(env: Env, m: Member, h: Header, rest: string)
    requires env.cap >= 256 && GoodKey(env, m) && KeyOf(env, m) !in h.seen
    requires h.keyMemory + KeyCost(KeyOf(env, m)) <= env.cap
    ensures Key(env, m.before + (m.key + (m.gap + (":" + rest))), h) == Some((KeyOf(env, m), Next(env, m, h), rest))
  {
    DelimitsAfter(env, m.gap, ':', rest);
    UnitTaken(env, m.before, m.key, env.decode(m.key).value, m.gap + (":" + rest));
    SkipsTo(m.gap, ':', rest);
    assert ([':'] + rest)[1..] == rest;
  }

  lemma NextMember(env: Env, ms: seq<Member>, rest: string)
    requires env.cap >= 256 && ms != [] && GoodKey(env, ms[0])
    requires forall i :: 0 <= i < |ms| ==> NonEmpty(ms[i].body)
    ensures !At(SkipBlanks(MembersText(ms, rest)), '}')
  {
    var m := ms[0];
    var tail := if |ms| == 1 then "}" + rest else "," + MembersText(ms[1..], rest);
    StartsWithUnit(env, m.before, m.key, env.decode(m.key).value, m.gap + (":" + BodyText(m.body, tail)), '}');
  }

  lemma MembersSkipBlanks(env: Env, rest: string, h: Header, acc: seq<Json>)
    ensures Members(env, SkipBlanks(rest), h, acc) == Members(env, rest, h, acc)
  {
    SkipBlanksTwice(rest);
    assert Value(env, SkipBlanks(rest)) == Value(env, rest);
    assert Key(env, SkipBlanks(rest), h) == Key(env, rest, h);
  }

  /** One member: what is left to parse after it. */
  lemma MemberAccepted(env: Env, m: Member, h: Header, tail: string, acc: seq<Json>)
    requires env.cap >= 256 && GoodMember(env, m, h)
    requires N.Delimits(env, Trailing(m.body) + tail)
    ensures Members(env, m.before + (m.key + (m.gap + (":" + BodyText(m.body, tail)))), h, acc)
         == MembersFrom(env, Trailing(m.body) + tail, Next(env, m, h), acc + BodyValues(env, KeyOf(env, m), m.body))
  {
    KeyAccepted(env, m, h, BodyText(m.body, tail));
    BodyAccepted(env, KeyOf(env, m), m.body, tail, acc);
  }

  /** Parsing on from just after a member's body. */
  function MembersFrom(env: Env, rest: string, h: Header, acc: seq<Json>): (Parsed, bool) {
    match AfterItem('}', rest)
    case Closed(r) => (Parsed(acc, Some(r)), h.found)
    case Another(r) => Members(env, r, h, acc)
    case Unexpected => (Parsed(acc, None), false)
  }

  lemma {:induction false} MembersAccepted(env: Env, ms: seq<Member>, h: Header, rest: string, acc: seq<Json>)
    requires env.cap >= 256 && ms != [] && GoodMembers(env, ms, h)
    requires forall i :: 0 <= i < |ms| ==> NonEmpty(ms[i].body)
    ensures Members(env, MembersText(ms, rest), h, acc)
         == (Parsed(acc + MemberValues(env, ms, h), Some(rest)), h.found || HasRoas(ms))
    decreases |ms|
  {
    var m, h' := ms[0], Next(env, ms[0], h);
    var values := BodyValues(env, KeyOf(env, m), m.body);
    HasRoasStep(env, ms, h);
    if |ms| == 1 {
      LastMember(env, m, h, rest, acc);
      assert ms[1..] == [] && values + [] == values;
    } else {
      var more := MembersText(ms[1..], rest);
      NextMember(env, ms[1..], rest);
      MoreMembers(env, m, h, more, acc);
      MembersAccepted(env, ms[1..], h', rest, acc + values);
      Assoc(acc, values, MemberValues(env, ms[1..], h'));
    }
  }

  lemma LastMember(env: Env, m: Member, h: Header, rest: string, acc: seq<Json>)
    requires env.cap >= 256 && GoodMember(env, m, h)
    ensures Members(env, m.before + (m.key + (m.gap + (":" + BodyText(m.body, "}" + rest)))), h, acc)
         == (Parsed(acc + BodyValues(env, KeyOf(env, m), m.body), Some(rest)), Next(env, m, h).found)
  {
    DelimitsAfter(env, Trailing(m.body), '}', rest);
    MemberAccepted(env, m, h, "}" + rest, acc);
    AfterClosed('}', Trailing(m.body), rest);
  }

  lemma MoreMembers(env: Env, m: Member, h: Header, more: string, acc: seq<Json>)
    requires env.cap >= 256 && GoodMember(env, m, h) && !At(SkipBlanks(more), '}')
    ensures Members(env, m.before + (m.key + (m.gap + (":" + BodyText(m.body, "," + more)))), h, acc)
         == Members(env, more, Next(env, m, h), acc + BodyValues(env, KeyOf(env, m), m.body))
  {
    DelimitsAfter(env, Trailing(m.body), ',', more);
    MemberAccepted(env, m, h, "," + more, acc);
    AfterComma('}', Trailing(m.body), more);
    MembersSkipBlanks(env, more, Next(env, m, h), acc + BodyValues(env, KeyOf(env, m), m.body));
  }

  lemma HasRoasStep(env: Env, ms: seq<Member>, h: Header)
    requires ms != [] && GoodMembers(env, ms, h)
    ensures h.found || HasRoas(ms) <==> Next(env, ms[0], h).found || HasRoas(ms[1..])
  {
    if HasRoas(ms) {
      var k :| 0 <= k < |ms| && ms[k].body.RoaArray?;
      if k > 0 { assert ms[1..][k - 1] == ms[k]; }
    }
    if HasRoas(ms[1..]) {
      var k :| 0 <= k < |ms[1..]| && ms[1..][k].body.RoaArray?;
      assert ms[k + 1] == ms[1..][k];
    }
  }

  lemma OnlyBlanksLeft(b: string)
    requires Blanks(b)
    ensures SkipBlanks(b) == ""
  {
    SkipsBlanks(b, "");
    assert b + "" == b;
  }

  /** Completeness: every document of the grammar is accepted, with exactly its entries. */
  lemma GrammarIsAccepted(env: Env, d: Doc)
    requires env.cap >= 256 && Good(env, d)
    ensures Document(env, DocText(env, d)) == Outcome(Entries(env, d), true)
  {
    match d
    case ArrayDoc(before, roas, after) =>
      var text := ArrayText(roas, after);
      SkipsTo(before, '[', text[1..]);
      assert text == ['['] + text[1..];
      assert "" + text == text;
      RoasAccepted(env, "", roas, after, []);
      OnlyBlanksLeft(after);
      assert [] + ArrayValues(env, roas) == ArrayValues(env, roas);
    case ObjectDoc(before, ms, after) =>
      MembersTogether(env, ms, FIRST);
      ValuesOfMembers(env, ms, FIRST);
      var text := MembersText(ms, after);
      SkipsTo(before, '{', text);
      assert (['{'] + text)[1..] == text;
      NextMember(env, ms, after);
      MembersSkipBlanks(env, text, FIRST, []);
      MembersAccepted(env, ms, FIRST, after, []);
      OnlyBlanksLeft(after);
      assert [] + MemberValues(env, ms, FIRST) == MemberValues(env, ms, FIRST);
  }

  // ---- The key budget is exact ----

  lemma KeyOverBudget(env: Env, m: Member, h: Header, rest: string)
    requires env.cap >= 256 && GoodKey(env, m) && h.keyMemory + 128 + 4 * |KeyOf(env, m)| > env.cap
    ensures Key(env, m.before + (m.key + (m.gap + (":" + rest))), h) == None
  {
    DelimitsAfter(env, m.gap, ':', rest);
    UnitTaken(env, m.before, m.key, env.decode(m.key).value, m.gap + (":" + rest));
  }

  lemma {:induction false} MembersOverBudget(env: Env, ms: seq<Member>, h: Header, rest: string, acc: seq<Json>)
    requires env.cap >= 256 && ms != [] && GoodEach(env, ms) && KeysDiffer(env, ms) && KeysNew(env, ms, h)
    requires h.keyMemory + KeyMemory(env, ms) > env.cap
    ensures Members(env, MembersText(ms, rest), h, acc).0.rest == None
    decreases |ms|
  {
    var m, later := ms[0], ms[1..];
    EachOfLater(env, ms);
    MemoryOfFirst(env, ms);
    if h.keyMemory + 128 + 4 * |KeyOf(env, m)| > env.cap {
      KeyOverBudget(env, m, h, BodyText(m.body, if |ms| == 1 then "}" + rest else "," + MembersText(later, rest)));
    } else {
      DifferFromFirst(env, ms, h);
      NextMember(env, later, rest);
      MoreMembers(env, m, h, MembersText(later, rest), acc);
      MembersOverBudget(env, later, Next(env, m, h), rest, acc + BodyValues(env, KeyOf(env, m), m.body));
    }
  }

  /** An object that is good but for its keys taking more memory than admitted is refused. */
  lemma ObjectOverBudget(env: Env, before: string, ms: seq<Member>, after: string)
    requires env.cap >= 256 && Blanks(before) && GoodObject(env, ms) && KeyMemory(env, ms) > env.cap
    ensures !Document(env, before + ("{" + MembersText(ms, after))).accepted
  {
    var text := MembersText(ms, after);
    SkipsTo(before, '{', text);
    assert (['{'] + text)[1..] == text;
    NextMember(env, ms, after);
    MembersSkipBlanks(env, text, FIRST, []);
    MembersOverBudget(env, ms, FIRST, after, []);
  }

  // ---- Everything accepted is a document of the grammar ----

  lemma {:induction false} BlanksFound(rest: string) returns (b: string)
    ensures Blanks(b) && rest == b + SkipBlanks(rest)
  {
    if rest != "" && Blank(rest[0]) {
      var later := BlanksFound(rest[1..]);
      b := [rest[0]] + later;
      assert rest == [rest[0]] + rest[1..];
    } else {
      b := "";
      assert rest == "" + rest;
    }
  }

  lemma UnitFound(env: Env, rest: string) returns (before: string, text: string)
    requires env.cap >= 256 && env.decode("") == None && Value(env, rest).Some?
    ensures Blanks(before) && Unit(env, text, Value(env, rest).value.value)
    ensures rest == before + (text + Value(env, rest).value.rest)
  {
    before := BlanksFound(rest);
    var r := SkipBlanks(rest);
    var n := Extent(env, r).value;
    text := r[..n];
    assert r[..0] == "";
    N.FramedIsWhole(env, r, n);
    assert r == text + r[n..];
  }

  lemma SeparatorFound(close: char, rest: string) returns (b: string, gap: string)
    requires !AfterItem(close, rest).Unexpected?
    ensures Blanks(b) && Blanks(gap)
    ensures match AfterItem(close, rest)
            case Closed(r) => rest == b + ([close] + r)
            case Another(r) => rest == b + ("," + (gap + r))
            case Unexpected => true
  {
    b := BlanksFound(rest);
    var r := SkipBlanks(rest);
    HeadAndTail(r);
    gap := "";
    if !At(r, close) { gap := BlanksFound(r[1..]); }
  }

  lemma HeadAndTail(r: string)
    requires r != ""
    ensures r == [r[0]] + r[1..]
  {
  }

  /** Blanks in front of the first item. */
  function Indent(gap: string, items: seq<Item>): seq<Item>
    requires items != []
  {
    [items[0].(before := gap + items[0].before)] + items[1..]
  }

  lemma IndentText(env: Env, gap: string, items: seq<Item>, rest: string)
    requires items != [] && Blanks(gap) && forall k :: 0 <= k < |items| ==> GoodEntry(env, items[k])
    ensures ItemsText(Indent(gap, items), rest) == gap + ItemsText(items, rest)
    ensures forall k :: 0 <= k < |items| ==> GoodEntry(env, Indent(gap, items)[k])
    ensures ItemValues(env, Indent(gap, items)) == ItemValues(env, items)
  {
    var more := Indent(gap, items);
    assert more[1..] == items[1..];
    assert GoodEntry(env, items[0]);
    var i := items[0];
    var tail := if |items| == 1 then "]" + rest else "," + ItemsText(items[1..], rest);
    Assoc(gap, i.before, i.text + (i.after + tail));
  }

  lemma {:induction false} ItemsFound(env: Env, rest: string, acc: seq<Json>) returns (items: seq<Item>)
    requires env.cap >= 256 && env.decode("") == None && Items(env, rest, acc).rest.Some?
    ensures items != [] && forall k :: 0 <= k < |items| ==> GoodEntry(env, items[k])
    ensures rest == ItemsText(items, Items(env, rest, acc).rest.value)
    ensures Items(env, rest, acc).entries == acc + ItemValues(env, items)
    decreases |rest|
  {
    var Taken(v, after) := Value(env, rest).value;
    var before, text := UnitFound(env, rest);
    var b, gap := SeparatorFound(']', after);
    var i := Item(before, text, b);
    match AfterItem(']', after) {
      case Closed(r) =>
        items := [i];
        assert ItemValues(env, items) == [v];
      case Another(r) =>
        var later := ItemsFound(env, r, acc + [v]);
        var end := Items(env, rest, acc).rest.value;
        IndentText(env, gap, later, end);
        var more := Indent(gap, later);
        items := [i] + more;
        assert items[1..] == more;
        Assoc(acc, [v], ItemValues(env, later));
    }
  }

  lemma EmptyArrayFound(inner: string, first: string)
    requires At(first, ']')
    ensures ArrayText(EmptyArray(inner), first[1..]) == "[" + (inner + first)
  {
    assert first == "]" + first[1..];
  }

  /** The array from its opening bracket on. */
  lemma ArrayAt(env: Env, r: string, acc: seq<Json>) returns (a: Array)
    requires env.cap >= 256 && env.decode("") == None && At(r, '[') && Roas(env, r, acc).rest.Some?
    ensures GoodArray(env, a) && r == ArrayText(a, Roas(env, r, acc).rest.value)
    ensures Roas(env, r, acc).entries == acc + ArrayValues(env, a)
  {
    assert SkipBlanks(r) == r;
    var inner := BlanksFound(r[1..]);
    var first := SkipBlanks(r[1..]);
    assert r == "[" + r[1..];
    if At(first, ']') {
      a := EmptyArray(inner);
      EmptyArrayFound(inner, first);
      assert acc + [] == acc;
    } else {
      var later := ItemsFound(env, first, acc);
      IndentText(env, inner, later, Items(env, first, acc).rest.value);
      a := Filled(Indent(inner, later));
    }
  }

  lemma ArrayFound(env: Env, rest: string, acc: seq<Json>) returns (b: string, a: Array)
    requires env.cap >= 256 && env.decode("") == None && Roas(env, rest, acc).rest.Some?
    ensures Blanks(b) && GoodArray(env, a) && rest == b + ArrayText(a, Roas(env, rest, acc).rest.value)
    ensures Roas(env, rest, acc).entries == acc + ArrayValues(env, a)
  {
    b := BlanksFound(rest);
    SkipBlanksTwice(rest);
    assert Roas(env, SkipBlanks(rest), acc) == Roas(env, rest, acc);
    a := ArrayAt(env, SkipBlanks(rest), acc);
  }

  /** A body with blanks after it. */
  function Trailed(c: Content, b: string): Content {
    match c
    case Meta(i) => Meta(i.(after := b))
    case RoaArray(before, roas, _) => RoaArray(before, roas, b)
  }

  lemma ContentFound(env: Env, key: string, rest: string, acc: seq<Json>) returns (c: Content)
    requires env.cap >= 256 && env.decode("") == None && VrpText.Body(env, key, rest, acc).rest.Some?
    ensures GoodBody(env, key, c) && Trailing(c) == ""
            && rest == BodyText(c, VrpText.Body(env, key, rest, acc).rest.value)
    ensures VrpText.Body(env, key, rest, acc).entries == acc + BodyValues(env, key, c)
  {
    var end := VrpText.Body(env, key, rest, acc).rest.value;
    assert "" + end == end;
    if key == "roas" {
      var b, a := ArrayFound(env, rest, acc);
      c := RoaArray(b, a, "");
    } else {
      var before, text := UnitFound(env, rest);
      c := Meta(Item(before, text, ""));
      assert acc + [] == acc;
    }
  }

  lemma TrailedText(env: Env, key: string, c: Content, b: string, rest: string)
    requires GoodBody(env, key, c) && Trailing(c) == "" && Blanks(b)
    ensures GoodBody(env, key, Trailed(c, b)) && BodyValues(env, key, Trailed(c, b)) == BodyValues(env, key, c)
    ensures BodyText(Trailed(c, b), rest) == BodyText(c, b + rest)
  {
    assert "" + (b + rest) == b + rest;
  }

  lemma KeyFound(env: Env, rest: string, h: Header) returns (before: string, text: string, gap: string)
    requires env.cap >= 256 && env.decode("") == None && Key(env, rest, h).Some?
    ensures Blanks(before) && Blanks(gap) && Unit(env, text, JString(Key(env, rest, h).value.0))
    ensures rest == before + (text + (gap + (":" + Key(env, rest, h).value.2)))
  {
    before, text := UnitFound(env, rest);
    var after := Value(env, rest).value.rest;
    gap := BlanksFound(after);
    var colon := SkipBlanks(after);
    assert colon == ":" + colon[1..];
  }

  /** Blanks in front of the first member. */
  function Shift(gap: string, ms: seq<Member>): seq<Member>
    requires ms != []
  {
    [ms[0].(before := gap + ms[0].before)] + ms[1..]
  }

  lemma ShiftText(env: Env, gap: string, ms: seq<Member>, h: Header, rest: string)
    requires ms != [] && Blanks(gap) && GoodMembers(env, ms, h)
    ensures GoodMembers(env, Shift(gap, ms), h) && HasRoas(Shift(gap, ms)) == HasRoas(ms)
    ensures (forall i :: 0 <= i < |ms| ==> NonEmpty(ms[i].body))
            && (forall i :: 0 <= i < |ms| ==> NonEmpty(Shift(gap, ms)[i].body))
    ensures MembersText(Shift(gap, ms), rest) == gap + MembersText(ms, rest)
    ensures MemberValues(env, Shift(gap, ms), h) == MemberValues(env, ms, h)
  {
    var more := Shift(gap, ms);
    GoodMembersHaveText(env, ms, h);
    assert more[1..] == ms[1..] && more[0].body == ms[0].body;
    assert forall i :: 0 <= i < |ms| ==> more[i].body == ms[i].body;
    var m := ms[0];
    var tail := if |ms| == 1 then "}" + rest else "," + MembersText(ms[1..], rest);
    Assoc(gap, m.before, m.key + (m.gap + (":" + BodyText(m.body, tail))));
    assert GoodMember(env, more[0], h) && Next(env, more[0], h) == Next(env, m, h);
  }

  /** One member, with the separator that follows it. */
  lemma MemberFound(env: Env, rest: string, h: Header, acc: seq<Json>) returns (m: Member, gap: string)
    requires env.cap >= 256 && env.decode("") == None && Members(env, rest, h, acc).0.rest.Some?
    ensures GoodMember(env, m, h) && Blanks(gap)
    ensures var k := Key(env, rest, h).value;
            var body := VrpText.Body(env, k.0, k.2, acc);
            && Key(env, rest, h).Some? && body.rest.Some?
            && k.1 == Next(env, m, h) && body.entries == acc + BodyValues(env, KeyOf(env, m), m.body)
            && match AfterItem('}', body.rest.value)
               case Closed(r) => rest == m.before + (m.key + (m.gap + (":" + BodyText(m.body, "}" + r))))
               case Another(r) => rest == m.before + (m.key + (m.gap + (":" + BodyText(m.body, "," + (gap + r)))))
               case Unexpected => false
  {
    var before, text, colon := KeyFound(env, rest, h);
    var (key, h', afterColon) := Key(env, rest, h).value;
    var body := VrpText.Body(env, key, afterColon, acc);
    var c := ContentFound(env, key, afterColon, acc);
    var b;
    b, gap := SeparatorFound('}', body.rest.value);
    m := Member(before, text, colon, Trailed(c, b));
    match AfterItem('}', body.rest.value) {
      case Closed(r) => TrailedText(env, key, c, b, "}" + r);
      case Another(r) => TrailedText(env, key, c, b, "," + (gap + r));
    }
  }

  lemma {:induction false} MembersFound(env: Env, rest: string, h: Header, acc: seq<Json>) returns (ms: seq<Member>)
    requires env.cap >= 256 && env.decode("") == None && Members(env, rest, h, acc).0.rest.Some?
    ensures ms != [] && GoodMembers(env, ms, h) && forall i :: 0 <= i < |ms| ==> NonEmpty(ms[i].body)
    ensures rest == MembersText(ms, Members(env, rest, h, acc).0.rest.value)
    ensures Members(env, rest, h, acc).0.entries == acc + MemberValues(env, ms, h)
    ensures Members(env, rest, h, acc).1 == (h.found || HasRoas(ms))
    decreases |rest|
  {
    var m, gap := MemberFound(env, rest, h, acc);
    var k := Key(env, rest, h).value;
    var body := VrpText.Body(env, k.0, k.2, acc);
    var h' := Next(env, m, h);
    match AfterItem('}', body.rest.value) {
      case Closed(r) =>
        ms := [m];
        assert ms[1..] == [];
        assert BodyValues(env, KeyOf(env, m), m.body) + [] == BodyValues(env, KeyOf(env, m), m.body);
        HasRoasStep(env, ms, h);
      case Another(r) =>
        var later := MembersFound(env, r, h', body.entries);
        var end := Members(env, rest, h, acc).0.rest.value;
        ShiftText(env, gap, later, h', end);
        var more := Shift(gap, later);
        ms := [m] + more;
        assert ms[1..] == more;
        GoodMembersHaveText(env, ms, h);
        HasRoasStep(env, ms, h);
        Assoc(acc, BodyValues(env, KeyOf(env, m), m.body), MemberValues(env, later, h'));
    }
  }

  lemma BlankFirst(b: string, rest: string)
    requires Blanks(b)
    ensures b == "" || Blank((b + rest)[0])
  {
  }

  /** Soundness: whatever is accepted is a document of the grammar. */
  lemma AcceptedIsGrammar(env: Env, text: string) returns (d: Doc)
    requires env.cap >= 256 && env.decode("") == None && Document(env, text).accepted
    ensures Good(env, d) && DocText(env, d) == text
  {
    var before := BlanksFound(text);
    var r := SkipBlanks(text);
    SkipBlanksTwice(text);
    if At(r, '[') {
      var p := Roas(env, r, []);
      var b, a := ArrayFound(env, r, []);
      BlankFirst(b, ArrayText(a, p.rest.value));
      var after := BlanksFound(p.rest.value);
      assert after + "" == after && "" + ArrayText(a, after) == ArrayText(a, after);
      d := ArrayDoc(before, a, after);
    } else {
      d := ObjectFound(env, before, r);
    }
  }

  lemma ObjectFound(env: Env, before: string, r: string) returns (d: Doc)
    requires env.cap >= 256 && env.decode("") == None && Blanks(before) && At(r, '{')
    requires Enclosed(env, r).1 && OnlyBlanks(Enclosed(env, r).0.rest)
    ensures Good(env, d) && DocText(env, d) == before + r
  {
    var gap := BlanksFound(r[1..]);
    var first := SkipBlanks(r[1..]);
    assert r == "{" + r[1..];
    var ms := MembersFound(env, first, FIRST, []);
    var after := BlanksFound(Enclosed(env, r).0.rest.value);
    assert after + "" == after;
    ShiftText(env, gap, ms, FIRST, after);
    MembersTogether(env, Shift(gap, ms), FIRST);
    d := ObjectDoc(before, Shift(gap, ms), after);
  }

  /** The export is accepted if and only if it is a document of the grammar, and what it yields are
      that document's entries: streaming is whole-document parsing, all or nothing. */
  lemma AcceptedIffGrammar(env: Env, text: string)
    requires env.cap >= 256 && env.decode("") == None
    ensures Document(env, text).accepted <==> exists d :: Good(env, d) && DocText(env, d) == text
    ensures forall d :: Good(env, d) && DocText(env, d) == text ==> Document(env, text).entries == Entries(env, d)
  {
    if Document(env, text).accepted {
      var d := AcceptedIsGrammar(env, text);
    }
    forall d | Good(env, d) && DocText(env, d) == text
      ensures Document(env, text) == Outcome(Entries(env, d), true)
    {
      GrammarIsAccepted(env, d);
    }
  }
}
