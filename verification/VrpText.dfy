/**
 What a validator export means, as functions of its whole decoded text: how the extent of one value
 is found, and how the enclosing document is read.  Nothing here knows about reads or buffers; the
 stream in VrpStream.dfy is proved equal to these functions however its input arrives.
 */
module VrpText {
  import opened Wrappers

  const MAX_VRP_BYTES := 0x4000_0000

  datatype Json =
    | JObject(members: map<string, Json>)
    | JArray(items: seq<Json>)
    | JString(s: string)
    | JNumber(literal: string)
    | JBool(b: bool)
    | JNull

  /** `cap` bounds the representation charge, `recursion` the nesting; `decode` is the JSON decoder
      applied once to each complete value (duplicate keys and non-JSON constants are refused); `ended`
      says that the text is all there is, and not what came before the source broke. */
  datatype Env = Env(cap: int, recursion: int, decode: string -> Option<Json>, ended: bool)

  predicate Blank(c: char) { c == ' ' || c == '\t' || c == '\r' || c == '\n' }

  function SkipBlanks(rest: string): (r: string)
    ensures |r| <= |rest|
    ensures r != "" ==> !Blank(r[0])
  {
    if rest != "" && Blank(rest[0]) then SkipBlanks(rest[1..]) else rest
  }

  lemma SkipBlanksTwice(rest: string)
    ensures SkipBlanks(SkipBlanks(rest)) == SkipBlanks(rest)
  {
  }

  /** The text starts with c. */
  predicate At(rest: string, c: char) { rest != "" && rest[0] == c }

  // ---- Where one value ends ----

  datatype Kind = Scalar | Quoted | Compound

  predicate Opening(c: char) { c == '[' || c == '{' }

  predicate Closing(c: char) { c == ']' || c == '}' }

  predicate Pairs(open: char, close: char) {
    (open == '[' && close == ']') || (open == '{' && close == '}')
  }

  function KindOf(first: char): Kind {
    if first == '"' then Quoted else if Opening(first) then Compound else Scalar
  }

  datatype Scan = Scan(inString: bool, escaped: bool, stack: seq<char>, charge: int)

  /** The characters the scan stops to look at. */
  predicate Special(kind: Kind, inString: bool, c: char) {
    if kind == Scalar then Blank(c) || c == ',' || c == ':' || Closing(c)
    else if inString then c == '"' || c == '\\'
    else c == '"' || c == '\\' || c == ':' || c == ',' || Opening(c) || Closing(c)
  }

  datatype Step = Go(s: Scan) | StopBefore | StopAfter | Refuse

  /** One special character, its charge already admitted. */
  function Look(env: Env, kind: Kind, s: Scan, c: char): Step {
    var next := s.(charge := s.charge + 64 + if s.inString then 0 else 256);
    if kind == Scalar then StopBefore
    else if s.inString then
      if c == '\\' then Go(next.(escaped := true))
      else if c == '"' then (if kind == Quoted then StopAfter else Go(next.(inString := false)))
      else Go(next)
    else if c == '"' then Go(next.(inString := true))
    else if Opening(c) then
      if |s.stack| + 1 > env.recursion then Refuse else Go(next.(stack := s.stack + [c]))
    else if Closing(c) then
      if s.stack == [] || !Pairs(s.stack[|s.stack| - 1], c) then Refuse
      else if |s.stack| == 1 then StopAfter
      else Go(next.(stack := s.stack[..|s.stack| - 1]))
    else Go(next)
  }

  /** One character of the character-by-character scan. */
  function ScanChar(env: Env, kind: Kind, s: Scan, c: char): Step {
    if s.escaped then Go(s.(escaped := false, charge := s.charge + 64))
    else if !Special(kind, s.inString, c) then
      if s.charge + 64 > env.cap then Refuse else Go(s.(charge := s.charge + 64))
    else if s.charge > env.cap then Refuse
    else Look(env, kind, s, c)
  }

  /** How many further characters belong to the value, or None when it is refused or never ends. */
  function ScanFrom(env: Env, kind: Kind, s: Scan, rest: string): (n: Option<nat>)
    ensures n.Some? ==> n.value <= |rest|
    decreases |rest|
  {
    if rest == "" then (if kind == Scalar && env.ended then Some(0) else None)
    else
      match ScanChar(env, kind, s, rest[0])
      case Go(s') => Plus(1, ScanFrom(env, kind, s', rest[1..]))
      case StopBefore => Some(0)
      case StopAfter => Some(1)
      case Refuse => None
  }

  function Plus(k: nat, n: Option<nat>): Option<nat> {
    match n case None => None case Some(m) => Some(k + m)
  }

  /** The scan state just after the first character (Quoted, Compound) or just before it (Scalar). */
  function StartScan(first: char): Scan {
    Scan(first == '"', false, if Opening(first) then [first] else [], 256)
  }

  function StartOffset(first: char): nat { if KindOf(first) == Scalar then 0 else 1 }

  /** Length of the value at the front of a text. */
  function Extent(env: Env, rest: string): (n: Option<nat>)
    requires rest != ""
    ensures n.Some? ==> n.value <= |rest|
  {
    var off := StartOffset(rest[0]);
    Plus(off, ScanFrom(env, KindOf(rest[0]), StartScan(rest[0]), rest[off..]))
  }

  /** A value that has an extent in a text that may go on has the same extent however it goes on. */
  lemma {:induction false} ScanGoesOn(open: Env, env: Env, kind: Kind, s: Scan, rest: string, more: string)
    requires open == env.(ended := false) && ScanFrom(open, kind, s, rest).Some?
    ensures ScanFrom(env, kind, s, rest + more) == ScanFrom(open, kind, s, rest)
    decreases |rest|
  {
    var step := ScanChar(open, kind, s, rest[0]);
    assert (rest + more)[0] == rest[0] && (rest + more)[1..] == rest[1..] + more;
    assert ScanChar(env, kind, s, rest[0]) == step;
    if step.Go? { ScanGoesOn(open, env, kind, step.s, rest[1..], more); }
  }

  // ---- The enclosing document ----

  datatype Taken = Taken(value: Json, rest: string)

  function Value(env: Env, rest: string): (v: Option<Taken>)
    ensures v.Some? ==> |v.value.rest| <= |rest|
  {
    var r := SkipBlanks(rest);
    if r == "" then None
    else
      match Extent(env, r)
      case None => None
      case Some(n) =>
        match env.decode(r[..n])
        case None => None
        case Some(v) => Some(Taken(v, r[n..]))
  }

  /** Entries produced so far, and the text left over, or None once the text is refused. */
  datatype Parsed = Parsed(entries: seq<Json>, rest: Option<string>)

  datatype Separator = Closed(rest: string) | Another(rest: string) | Unexpected

  /** What follows an array entry or an object member: the closing bracket, or a comma that is not
      itself followed by the closing bracket. */
  function AfterItem(close: char, rest: string): (s: Separator)
    ensures !s.Unexpected? ==> |s.rest| < |rest|
  {
    var r := SkipBlanks(rest);
    if At(r, close) then Closed(r[1..])
    else if !At(r, ',') then Unexpected
    else
      var next := SkipBlanks(r[1..]);
      if At(next, close) then Unexpected else Another(next)
  }

  /** The entries of the ROA array, from the first one on. */
  function Items(env: Env, rest: string, acc: seq<Json>): (p: Parsed)
    ensures acc <= p.entries
    ensures p.rest.Some? ==> |p.rest.value| < |rest|
    decreases |rest|
  {
    match Value(env, rest)
    case None => Parsed(acc, None)
    case Some(Taken(v, afterValue)) =>
      if !v.JObject? then Parsed(acc, None)
      else
        match AfterItem(']', afterValue)
        case Closed(r) => Parsed(acc + [v], Some(r))
        case Another(r) => Items(env, r, acc + [v])
        case Unexpected => Parsed(acc + [v], None)
  }

  /** The whole ROA array. */
  function Roas(env: Env, rest: string, acc: seq<Json>): (p: Parsed)
    ensures acc <= p.entries
    ensures p.rest.Some? ==> |p.rest.value| < |rest|
  {
    var r := SkipBlanks(rest);
    if !At(r, '[') then Parsed(acc, None)
    else
      var first := SkipBlanks(r[1..]);
      if At(first, ']') then Parsed(acc, Some(first[1..])) else Items(env, first, acc)
  }

  /** What the top-level object has shown so far. */
  datatype Header = Header(seen: set<string>, keyMemory: int, found: bool)

  function KeyCost(key: string): int { 128 + 4 * |key| }

  /** A key and its colon: the header after it, or None when it is refused. */
  function Key(env: Env, rest: string, h: Header): (k: Option<(string, Header, string)>)
    ensures k.Some? ==> |k.value.2| < |rest|
  {
    match Value(env, rest)
    case None => None
    case Some(Taken(key, afterKey)) =>
      if !key.JString? || key.s in h.seen || h.keyMemory + KeyCost(key.s) > env.cap then None
      else
        var colon := SkipBlanks(afterKey);
        if !At(colon, ':') then None
        else Some((key.s, After(h, key.s), colon[1..]))
  }

  /** The value of one member: the ROA array, or metadata. */
  function Body(env: Env, key: string, rest: string, acc: seq<Json>): (p: Parsed)
    ensures acc <= p.entries
    ensures p.rest.Some? ==> |p.rest.value| <= |rest|
  {
    if key == "roas" then Roas(env, rest, acc) else Skipped(env, rest, acc)
  }

  /** The members of the top-level object, from the first key on, up to its closing brace, and
      whether one of them was the ROA array. */
  function Members(env: Env, rest: string, h: Header, acc: seq<Json>): (p: (Parsed, bool))
    ensures acc <= p.0.entries
    ensures p.0.rest.Some? ==> |p.0.rest.value| < |rest|
    decreases |rest|
  {
    match Key(env, rest, h)
    case None => (Parsed(acc, None), false)
    case Some((key, h', afterColon)) =>
      var body := Body(env, key, afterColon, acc);
      if body.rest.None? then (body, false)
      else
        match AfterItem('}', body.rest.value)
        case Closed(r) => (Parsed(body.entries, Some(r)), h'.found)
        case Another(r) => Members(env, r, h', body.entries)
        case Unexpected => (Parsed(body.entries, None), false)
  }

  // The same definitions, one step at a time.

  lemma ItemThenRest(env: Env, rest: string, acc: seq<Json>, v: Json, afterValue: string)
    requires Value(env, rest) == Some(Taken(v, afterValue)) && v.JObject?
    ensures Items(env, rest, acc)
         == match AfterItem(']', afterValue)
            case Closed(r) => Parsed(acc + [v], Some(r))
            case Another(r) => Items(env, r, acc + [v])
            case Unexpected => Parsed(acc + [v], None)
  {
  }

  /** A value that can be the next key. */
  predicate Names(v: Option<Taken>, h: Header, cap: int) {
    && v.Some? && v.value.value.JString? && v.value.value.s !in h.seen
    && h.keyMemory + KeyCost(v.value.value.s) <= cap
  }

  lemma KeyRefused(env: Env, rest: string, h: Header)
    requires !Names(Value(env, rest), h, env.cap)
    ensures Key(env, rest, h) == None
  {
  }

  /** The colon a key must be followed by. */
  function Colon(key: string, h: Header, afterKey: string): Option<(string, Header, string)> {
    var colon := SkipBlanks(afterKey);
    if !At(colon, ':') then None else Some((key, h, colon[1..]))
  }

  /** The header after one more key. */
  function After(h: Header, key: string): Header {
    Header(h.seen + {key}, h.keyMemory + KeyCost(key), h.found || key == "roas")
  }

  lemma KeyThenColon(env: Env, rest: string, h: Header, key: string, afterKey: string)
    requires Value(env, rest) == Some(Taken(JString(key), afterKey)) && Names(Value(env, rest), h, env.cap)
    ensures Key(env, rest, h) == Colon(key, After(h, key), afterKey)
  {
  }

  lemma MemberThenRest(env: Env, rest: string, h: Header, acc: seq<Json>,
                       key: string, h': Header, afterColon: string, body: Parsed)
    requires Key(env, rest, h) == Some((key, h', afterColon)) && body == Body(env, key, afterColon, acc)
    ensures Members(env, rest, h, acc)
         == if body.rest.None? then (body, false)
            else match AfterItem('}', body.rest.value)
              case Closed(r) => (Parsed(body.entries, Some(r)), h'.found)
              case Another(r) => Members(env, r, h', body.entries)
              case Unexpected => (Parsed(body.entries, None), false)
  {
  }

  /** A metadata value: checked, and dropped. */
  function Skipped(env: Env, rest: string, acc: seq<Json>): (p: Parsed)
    ensures p.entries == acc
    ensures p.rest.Some? ==> |p.rest.value| <= |rest|
  {
    match Value(env, rest)
    case None => Parsed(acc, None)
    case Some(t) => Parsed(acc, Some(t.rest))
  }

  datatype Outcome = Outcome(entries: seq<Json>, accepted: bool)

  /** Nothing but blanks may follow. */
  predicate OnlyBlanks(rest: Option<string>) { rest.Some? && SkipBlanks(rest.value) == "" }

  /** The top-level object from its opening brace, and whether it held the ROA array. */
  function Enclosed(env: Env, rest: string): (p: (Parsed, bool)) {
    var r := SkipBlanks(rest);
    if !At(r, '{') then (Parsed([], None), false)
    else
      var first := SkipBlanks(r[1..]);
      if At(first, '}') then (Parsed([], Some(first[1..])), false)
      else Members(env, first, Header({}, 0, false), [])
  }

  /** The object closed and the ROA array was found in it. */
  predicate Closes(p: (Parsed, bool)) { p.1 && p.0.rest.Some? }

  /** The complete export. */
  function Document(env: Env, text: string): Outcome {
    var r := SkipBlanks(text);
    if At(r, '[') then
      var p := Roas(env, r, []);
      Outcome(p.entries, OnlyBlanks(p.rest))
    else if At(r, '{') then
      var (p, found) := Enclosed(env, r);
      Outcome(p.entries, found && OnlyBlanks(p.rest))
    else Outcome([], false)
  }
}
