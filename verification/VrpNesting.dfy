/**
 What the extent of a value means.  The scan keeps a stack and a charge and looks at special
 characters only; here the texts it frames are described without it, as strings, bracketed groups and
 runs of plain characters, with their cost and depth.  The scan frames a text exactly when such a
 description exists within the limits.
 */
module VrpNesting {
  import opened Basics
  import opened Wrappers
  import opened VrpText

  datatype Node = Plain(c: char) | Str(body: string) | Group(open: char, inner: Forest)

  datatype Forest = Nil | Then(head: Node, tail: Forest)

  function CloseOf(open: char): char { if open == '[' then ']' else '}' }

  predicate Opener(c: char) { c == '[' || c == '{' }

  predicate Closer(c: char) { c == ']' || c == '}' }

  predicate Space(c: char) { c == ' ' || c == '\t' || c == '\r' || c == '\n' }

  /** What a bare word cannot hold. */
  predicate EndsWord(c: char) { Space(c) || c == ',' || c == ':' || Closer(c) }

  /** What may stand between two quotes: no bare quote, and every backslash takes the next character
      with it. */
  predicate Body(s: string) {
    s == "" || if s[0] == '\\' then |s| >= 2 && Body(s[2..]) else s[0] != '"' && Body(s[1..])
  }

  predicate Formed(n: Node) {
    match n
    case Plain(c) => c != '"' && !Opener(c) && !Closer(c)
    case Str(body) => Body(body)
    case Group(open, inner) => Opener(open) && AllFormed(inner)
  }

  predicate AllFormed(f: Forest) { f.Then? ==> Formed(f.head) && AllFormed(f.tail) }

  function Render(n: Node): string {
    match n
    case Plain(c) => [c]
    case Str(body) => "\"" + body + "\""
    case Group(open, inner) => [open] + RenderAll(inner) + [CloseOf(open)]
  }

  function RenderAll(f: Forest): string {
    match f case Nil => "" case Then(n, rest) => Render(n) + RenderAll(rest)
  }

  /** The representation charge. */
  function Cost(n: Node): nat {
    match n
    case Plain(c) => if c == '\\' || c == ':' || c == ',' then 320 else 64
    case Str(body) => 320 + 64 * |body| + 64
    case Group(open, inner) => 320 + AllCost(inner) + 320
  }

  function AllCost(f: Forest): nat {
    match f case Nil => 0 case Then(n, rest) => Cost(n) + AllCost(rest)
  }

  /** Nesting of the groups in a forest. */
  function Depth(f: Forest): nat {
    match f
    case Nil => 0
    case Then(n, rest) => Max(if n.Group? then 1 + Depth(n.inner) else 0, Depth(rest))
  }

  /** Further groups fit under a stack of this height. */
  predicate Room(env: Env, height: nat, f: Forest) { Depth(f) == 0 || height + Depth(f) <= env.recursion }

  // ---- Everything described is framed ----

  /** Reading `text` takes the scan from one state to another, without coming to an end in it. */
  predicate Moves(env: Env, kind: Kind, s: Scan, text: string, t: Scan)
    decreases |text|
  {
    if text == "" then t == s
    else ScanChar(env, kind, s, text[0]).Go? && Moves(env, kind, ScanChar(env, kind, s, text[0]).s, text[1..], t)
  }

  /** The scan then goes on from there, whatever follows. */
  lemma {:induction false} MovesOn(env: Env, kind: Kind, s: Scan, text: string, t: Scan, rest: string)
    requires Moves(env, kind, s, text, t)
    ensures ScanFrom(env, kind, s, text + rest) == Plus(|text|, ScanFrom(env, kind, t, rest))
    decreases |text|
  {
    if text == "" {
      assert text + rest == rest;
    } else {
      MovesOn(env, kind, ScanChar(env, kind, s, text[0]).s, text[1..], t, rest);
      assert (text + rest)[0] == text[0] && (text + rest)[1..] == text[1..] + rest;
    }
  }

  lemma MovesOne(env: Env, kind: Kind, s: Scan, c: char, t: Scan)
    requires ScanChar(env, kind, s, c) == Go(t)
    ensures Moves(env, kind, s, [c], t)
  {
    assert [c][1..] == "";
  }

  lemma {:induction false} MovesThen(env: Env, kind: Kind, s: Scan, a: string, t: Scan, b: string, u: Scan)
    requires Moves(env, kind, s, a, t) && Moves(env, kind, t, b, u)
    ensures Moves(env, kind, s, a + b, u)
    decreases |a|
  {
    if a == "" {
      assert a + b == b;
    } else {
      MovesThen(env, kind, ScanChar(env, kind, s, a[0]).s, a[1..], t, b, u);
      assert (a + b)[0] == a[0] && (a + b)[1..] == a[1..] + b;
    }
  }

  lemma EscapeMoves(env: Env, kind: Kind, c: char, s: Scan, t: Scan)
    requires kind != Scalar && s.inString && !s.escaped && s.charge <= env.cap && t == s.(charge := s.charge + 128)
    ensures Moves(env, kind, s, ['\\', c], t)
  {
    var e := s.(escaped := true, charge := s.charge + 64);
    MovesOne(env, kind, s, '\\', e);
    MovesOne(env, kind, e, c, t);
    MovesThen(env, kind, s, ['\\'], e, [c], t);
    assert ['\\'] + [c] == ['\\', c];
  }

  lemma {:induction false} BodyMoves(env: Env, kind: Kind, body: string, s: Scan, t: Scan)
    requires kind != Scalar && Body(body) && s.inString && !s.escaped
    requires t == s.(charge := s.charge + 64 * |body|) && t.charge <= env.cap
    ensures Moves(env, kind, s, body, t)
    decreases |body|
  {
    if body != "" {
      if body[0] == '\\' {
        var m := s.(charge := s.charge + 128);
        EscapeMoves(env, kind, body[1], s, m);
        BodyMoves(env, kind, body[2..], m, t);
        MovesThen(env, kind, s, ['\\', body[1]], m, body[2..], t);
        assert ['\\', body[1]] + body[2..] == body;
      } else {
        BodyMoves(env, kind, body[1..], s.(charge := s.charge + 64), t);
      }
    }
  }

  /** The closing quote itself is charged only afterwards. */
  lemma StrMoves(env: Env, body: string, s: Scan, t: Scan)
    requires Body(body) && !s.inString && !s.escaped && s.charge + 320 + 64 * |body| <= env.cap
    requires t == s.(charge := s.charge + Cost(Str(body)))
    ensures Moves(env, Compound, s, Render(Str(body)), t)
  {
    var q := s.(inString := true, charge := s.charge + 320);
    var e := q.(charge := q.charge + 64 * |body|);
    MovesOne(env, Compound, s, '"', q);
    BodyMoves(env, Compound, body, q, e);
    MovesOne(env, Compound, e, '"', t);
    MovesThen(env, Compound, s, ['"'], q, body, e);
    MovesThen(env, Compound, s, ['"'] + body, e, ['"'], t);
    assert ['"'] + body + ['"'] == Render(Str(body));
  }

  lemma {:induction false} ForestMoves(env: Env, f: Forest, s: Scan, t: Scan)
    requires AllFormed(f) && !s.inString && !s.escaped && s.stack != [] && Room(env, |s.stack|, f)
    requires t == s.(charge := s.charge + AllCost(f)) && t.charge <= env.cap
    ensures Moves(env, Compound, s, RenderAll(f), t)
    decreases f, 0
  {
    match f
    case Nil =>
    case Then(n, tail) =>
      var m := s.(charge := s.charge + Cost(n));
      match n {
        case Plain(c) => MovesOne(env, Compound, s, c, m);
        case Str(body) => StrMoves(env, body, s, m);
        case Group(open, inner) => GroupMoves(env, open, inner, s, m);
      }
      ForestMoves(env, tail, m, t);
      MovesThen(env, Compound, s, Render(n), m, RenderAll(tail), t);
  }

  lemma {:induction false} GroupMoves(env: Env, open: char, inner: Forest, s: Scan, t: Scan)
    requires Opening(open) && AllFormed(inner) && !s.inString && !s.escaped && s.stack != []
    requires |s.stack| + 1 + Depth(inner) <= env.recursion
    requires t == s.(charge := s.charge + Cost(Group(open, inner))) && t.charge <= env.cap
    ensures Moves(env, Compound, s, Render(Group(open, inner)), t)
    decreases inner, 1
  {
    var p := s.(stack := s.stack + [open], charge := s.charge + 320);
    var e := p.(charge := p.charge + AllCost(inner));
    MovesOne(env, Compound, s, open, p);
    ForestMoves(env, inner, p, e);
    assert e.stack[..|s.stack|] == s.stack;
    MovesOne(env, Compound, e, CloseOf(open), t);
    MovesThen(env, Compound, s, [open], p, RenderAll(inner), e);
    MovesThen(env, Compound, s, [open] + RenderAll(inner), e, [CloseOf(open)], t);
  }

  // ---- Everything framed is described ----

  lemma ScanHead(env: Env, kind: Kind, s: Scan, rest: string)
    requires kind != Scalar && ScanFrom(env, kind, s, rest).Some?
    ensures rest != ""
    ensures match ScanChar(env, kind, s, rest[0])
            case Go(t) =>
              ScanFrom(env, kind, t, rest[1..]).Some?
              && ScanFrom(env, kind, s, rest) == Plus(1, ScanFrom(env, kind, t, rest[1..]))
            case StopBefore => false
            case StopAfter => ScanFrom(env, kind, s, rest) == Some(1)
            case Refuse => false
  {
  }

  /** Inside quotes, a scan that ends has first read a string body and come to its closing quote. */
  lemma {:induction false} BodyFound(env: Env, kind: Kind, s: Scan, rest: string) returns (body: string)
    requires kind != Scalar && s.inString && !s.escaped && ScanFrom(env, kind, s, rest).Some?
    ensures Body(body) && |body| < |rest| && rest[..|body|] == body && rest[|body|] == '"'
    ensures s.charge + 64 * |body| <= env.cap
    decreases |rest|
  {
    ScanHead(env, kind, s, rest);
    var c := rest[0];
    if c == '"' {
      body := "";
    } else if c == '\\' {
      var e := s.(escaped := true, charge := s.charge + 64);
      assert ScanChar(env, kind, s, c) == Go(e);
      ScanHead(env, kind, e, rest[1..]);
      assert rest[1..][1..] == rest[2..];
      var later := BodyFound(env, kind, s.(charge := s.charge + 128), rest[2..]);
      body := [c, rest[1]] + later;
      assert body[2..] == later;
    } else {
      var later := BodyFound(env, kind, s.(charge := s.charge + 64), rest[1..]);
      body := [c] + later;
      assert body[1..] == later;
    }
  }

  /** One forest for each open bracket, innermost first, each ended by its closing bracket. */
  function RenderStack(stack: seq<char>, fs: seq<Forest>): string
    requires |stack| == |fs|
    decreases |fs|
  {
    if fs == [] then ""
    else RenderAll(fs[0]) + ([CloseOf(stack[|stack| - 1])] + RenderStack(stack[..|stack| - 1], fs[1..]))
  }

  /** The charge up to, but not including, the last closing bracket. */
  function StackCost(fs: seq<Forest>): int {
    if fs == [] then -320 else AllCost(fs[0]) + 320 + StackCost(fs[1..])
  }

  predicate StackRoom(env: Env, fs: seq<Forest>) {
    fs != [] ==> AllFormed(fs[0]) && Room(env, |fs|, fs[0]) && StackRoom(env, fs[1..])
  }

  /** The forests complete the text of a scan in this state, within the limits. */
  predicate Completes(env: Env, s: Scan, text: string, fs: seq<Forest>) {
    |fs| == |s.stack| && text == RenderStack(s.stack, fs) && s.charge + StackCost(fs) <= env.cap && StackRoom(env, fs)
  }

  lemma PutNode(env: Env, s: Scan, n: Node, m: Scan, text: string, fs: seq<Forest>) returns (gs: seq<Forest>)
    requires s.stack != [] && m.stack == s.stack && m.charge == s.charge + Cost(n)
    requires Completes(env, m, text, fs) && Formed(n) && Room(env, |s.stack|, Then(n, Nil))
    ensures Completes(env, s, Render(n) + text, gs)
  {
    gs := [Then(n, fs[0])] + fs[1..];
    assert gs[1..] == fs[1..];
    var close := [CloseOf(s.stack[|s.stack| - 1])] + RenderStack(s.stack[..|s.stack| - 1], fs[1..]);
    assert Render(n) + (RenderAll(fs[0]) + close) == (Render(n) + RenderAll(fs[0])) + close;
  }

  lemma PutOpen(env: Env, s: Scan, open: char, p: Scan, text: string, fs: seq<Forest>) returns (gs: seq<Forest>)
    requires s.stack != [] && Opening(open) && |s.stack| + 1 <= env.recursion
    requires p.stack == s.stack + [open] && p.charge == s.charge + 320 && Completes(env, p, text, fs)
    ensures Completes(env, s, [open] + text, gs)
  {
    var group, later := Group(open, fs[0]), fs[1..];
    gs := [Then(group, later[0])] + later[1..];
    assert gs[1..] == later[1..] && p.stack[..|p.stack| - 1] == s.stack && p.stack[|p.stack| - 1] == open;
    var close := [CloseOf(s.stack[|s.stack| - 1])] + RenderStack(s.stack[..|s.stack| - 1], later[1..]);
    assert RenderStack(s.stack, later) == RenderAll(later[0]) + close && StackRoom(env, later);
    assert StackCost(fs) == AllCost(fs[0]) + 320 + (AllCost(later[0]) + 320 + StackCost(later[1..]));
    assert AllCost(gs[0]) == Cost(group) + AllCost(later[0]) && Cost(group) == 640 + AllCost(fs[0]);
    assert StackCost(gs) == (640 + AllCost(fs[0])) + AllCost(later[0]) + 320 + StackCost(later[1..]);
    assert text == RenderAll(fs[0]) + ([CloseOf(open)] + (RenderAll(later[0]) + close));
    assert [open] + text == (Render(group) + RenderAll(later[0])) + close;
  }

  lemma PutClose(env: Env, s: Scan, close: char, p: Scan, text: string, fs: seq<Forest>) returns (gs: seq<Forest>)
    requires |s.stack| >= 2 && Pairs(s.stack[|s.stack| - 1], close)
    requires p.stack == s.stack[..|s.stack| - 1] && p.charge == s.charge + 320 && Completes(env, p, text, fs)
    ensures Completes(env, s, [close] + text, gs)
  {
    gs := [Nil] + fs;
    assert gs[1..] == fs;
    assert "" + ([close] + text) == [close] + text;
  }

  lemma {:induction false} ForestFound(env: Env, s: Scan, rest: string) returns (fs: seq<Forest>)
    requires !s.inString && !s.escaped && s.stack != [] && ScanFrom(env, Compound, s, rest).Some?
    ensures Completes(env, s, rest[..ScanFrom(env, Compound, s, rest).value], fs)
    decreases |rest|
  {
    ScanHead(env, Compound, s, rest);
    var c := rest[0];
    var n := ScanFrom(env, Compound, s, rest).value;
    if c == '"' {
      fs := StringFound(env, s, rest);
    } else if Closing(c) && |s.stack| == 1 {
      fs := [Nil];
      assert RenderStack(s.stack, fs) == "" + ([c] + "") && rest[..1] == [c];
    } else {
      var t := ScanChar(env, Compound, s, c).s;
      var later := ForestFound(env, t, rest[1..]);
      assert rest[..n] == [c] + rest[1..][..n - 1];
      if Opening(c) {
        fs := PutOpen(env, s, c, t, rest[1..][..n - 1], later);
      } else if Closing(c) {
        fs := PutClose(env, s, c, t, rest[1..][..n - 1], later);
      } else {
        fs := PutNode(env, s, Plain(c), t, rest[1..][..n - 1], later);
      }
    }
  }

  lemma {:induction false} StringFound(env: Env, s: Scan, rest: string) returns (fs: seq<Forest>)
    requires !s.inString && !s.escaped && s.stack != [] && ScanFrom(env, Compound, s, rest).Some?
    requires rest != "" && rest[0] == '"'
    ensures Completes(env, s, rest[..ScanFrom(env, Compound, s, rest).value], fs)
    decreases |rest|, 0
  {
    var n := ScanFrom(env, Compound, s, rest).value;
    var body, after := StringAhead(env, s, rest);
    var text := Render(Str(body));
    var t := s.(charge := s.charge + Cost(Str(body)));
    MovesOn(env, Compound, s, text, t, after);
    var later := ForestFound(env, t, after);
    fs := PutNode(env, s, Str(body), t, after[..n - |text|], later);
    FrontSplit(text, after, n);
  }

  lemma FrontSplit(a: string, b: string, n: nat)
    requires |a| <= n <= |a + b|
    ensures (a + b)[..n] == a + b[..n - |a|]
  {
  }

  /** A scan that ends and has a quote before it has a whole string before it. */
  lemma StringAhead(env: Env, s: Scan, rest: string) returns (body: string, after: string)
    requires !s.inString && !s.escaped && ScanFrom(env, Compound, s, rest).Some? && rest != "" && rest[0] == '"'
    ensures Body(body) && rest == Render(Str(body)) + after
    ensures Moves(env, Compound, s, Render(Str(body)), s.(charge := s.charge + Cost(Str(body))))
  {
    ScanHead(env, Compound, s, rest);
    var q := s.(inString := true, charge := s.charge + 320);
    body := BodyFound(env, Compound, q, rest[1..]);
    after := rest[|body| + 2..];
    CutString(rest, body);
    StrMoves(env, body, s, s.(charge := s.charge + Cost(Str(body))));
  }

  lemma CutString(rest: string, body: string)
    requires rest != "" && rest[0] == '"'
             && |body| < |rest[1..]| && rest[1..][..|body|] == body && rest[1..][|body|] == '"'
    ensures rest == Render(Str(body)) + rest[|body| + 2..]
  {
    assert rest == ['"'] + rest[1..];
    assert rest[1..] == body + (['"'] + rest[|body| + 2..]);
  }

  // ---- The extent of a value ----

  /** A group of this shape is admitted. */
  predicate Admitted(env: Env, f: Forest) {
    AllFormed(f) && 256 + AllCost(f) <= env.cap && Room(env, 1, f)
  }

  /** An array or object is framed with n characters exactly when these are one well-nested group
      within the charge and depth limits. */
  lemma CompoundExtent(env: Env, text: string, n: nat)
    requires text != "" && Opening(text[0])
    ensures Extent(env, text) == Some(n)
       <==> n <= |text| && exists f :: Admitted(env, f) && text[..n] == Render(Group(text[0], f))
  {
    var open := text[0];
    if Extent(env, text) == Some(n) {
      var f := GroupFound(env, text, n);
    }
    if n <= |text| && exists f :: Admitted(env, f) && text[..n] == Render(Group(open, f)) {
      var f :| Admitted(env, f) && text[..n] == Render(Group(open, f));
      GroupIsFramed(env, open, f, text[n..]);
      assert text == Render(Group(open, f)) + text[n..];
    }
  }

  lemma GroupFound(env: Env, text: string, n: nat) returns (f: Forest)
    requires text != "" && Opening(text[0]) && Extent(env, text) == Some(n)
    ensures Admitted(env, f) && text[..n] == Render(Group(text[0], f))
  {
    var open := text[0];
    var s := StartScan(open);
    var fs := ForestFound(env, s, text[1..]);
    f := fs[0];
    assert fs[1..] == [] && text[..n] == [open] + text[1..][..n - 1];
    assert RenderStack(s.stack, fs) == RenderAll(f) + ([CloseOf(open)] + "");
    assert text[..n] == Render(Group(open, f));
    assert StackCost(fs[1..]) == -320;
  }

  lemma GroupIsFramed(env: Env, open: char, f: Forest, rest: string)
    requires Opening(open) && Admitted(env, f)
    ensures Extent(env, Render(Group(open, f)) + rest) == Some(|Render(Group(open, f))|)
  {
    var s := StartScan(open);
    var t := s.(charge := s.charge + AllCost(f));
    var inner, tail := RenderAll(f), [CloseOf(open)] + rest;
    ForestMoves(env, f, s, t);
    GroupSplit(open, f, rest);
    MovesOn(env, Compound, s, inner, t, tail);
    LastClose(env, open, t, tail);
    ExtentOfGroup(env, open, [open] + (inner + tail), inner + tail, |inner| + 1);
  }

  lemma GroupSplit(open: char, f: Forest, rest: string)
    ensures Render(Group(open, f)) + rest == [open] + (RenderAll(f) + ([CloseOf(open)] + rest))
    ensures |Render(Group(open, f))| == |RenderAll(f)| + 2
  {
  }

  lemma LastClose(env: Env, open: char, t: Scan, tail: string)
    requires Opening(open) && !t.inString && !t.escaped && t.charge <= env.cap && t.stack == [open]
    requires tail != "" && tail[0] == CloseOf(open)
    ensures ScanFrom(env, Compound, t, tail) == Some(1)
  {
  }

  lemma ExtentOfGroup(env: Env, open: char, text: string, rest: string, n: nat)
    requires Opening(open) && text == [open] + rest && ScanFrom(env, Compound, StartScan(open), rest) == Some(n)
    ensures Extent(env, text) == Some(1 + n)
  {
    assert text[0] == open && text[1..] == rest;
  }

  /** A string is framed up to its first unescaped quote, within the charge limit. */
  lemma QuotedExtent(env: Env, text: string, n: nat)
    requires text != "" && text[0] == '"'
    ensures Extent(env, text) == Some(n)
       <==> n <= |text| && exists body :: Body(body) && 256 + 64 * |body| <= env.cap && text[..n] == Render(Str(body))
  {
    if Extent(env, text) == Some(n) {
      var body := QuotedFound(env, text, n);
    }
    if n <= |text| && exists body :: Body(body) && 256 + 64 * |body| <= env.cap && text[..n] == Render(Str(body)) {
      var body :| Body(body) && 256 + 64 * |body| <= env.cap && text[..n] == Render(Str(body));
      QuotedFramed(env, text, n, body);
    }
  }

  lemma QuotedFramed(env: Env, text: string, n: nat, body: string)
    requires n <= |text| && Body(body) && 256 + 64 * |body| <= env.cap && text[..n] == Render(Str(body))
    ensures text != "" && Extent(env, text) == Some(n)
  {
    Halves(text, n);
    StringIsFramed(env, body, text[n..]);
  }

  lemma QuotedFound(env: Env, text: string, n: nat) returns (body: string)
    requires text != "" && text[0] == '"' && Extent(env, text) == Some(n)
    ensures Body(body) && 256 + 64 * |body| <= env.cap && text[..n] == Render(Str(body))
  {
    body := BodyFound(env, Quoted, StartScan('"'), text[1..]);
    StringInFront(env, text, body);
  }

  lemma StringInFront(env: Env, text: string, body: string)
    requires text != "" && text[0] == '"' && Body(body) && 256 + 64 * |body| <= env.cap
    requires |body| < |text[1..]| && text[1..][..|body|] == body && text[1..][|body|] == '"'
    ensures Extent(env, text) == Some(|body| + 2) && text[..|body| + 2] == Render(Str(body))
  {
    CutString(text, body);
    StringIsFramed(env, body, text[|body| + 2..]);
  }

  lemma StringIsFramed(env: Env, body: string, rest: string)
    requires Body(body) && 256 + 64 * |body| <= env.cap
    ensures Extent(env, Render(Str(body)) + rest) == Some(|body| + 2)
  {
    var s := StartScan('"');
    var t := s.(charge := s.charge + 64 * |body|);
    var text := Render(Str(body)) + rest;
    var tail := ['"'] + rest;
    BodyMoves(env, Quoted, body, s, t);
    StrSplit(body, rest);
    LastQuote(env, t, tail);
    MovesOn(env, Quoted, s, body, t, tail);
    ExtentOfString(env, text, body + tail, |body| + 1);
  }

  lemma StrSplit(body: string, rest: string)
    ensures Render(Str(body)) + rest == ['"'] + (body + (['"'] + rest))
  {
  }

  lemma ExtentOfString(env: Env, text: string, rest: string, n: nat)
    requires text == ['"'] + rest && ScanFrom(env, Quoted, StartScan('"'), rest) == Some(n)
    ensures Extent(env, text) == Some(1 + n)
  {
    assert text[0] == '"' && text[1..] == rest;
  }

  lemma LastQuote(env: Env, t: Scan, tail: string)
    requires t.inString && !t.escaped && t.charge <= env.cap && tail != "" && tail[0] == '"'
    ensures ScanFrom(env, Quoted, t, tail) == Some(1)
  {
  }

  /** Neither a blank nor a delimiter. */
  predicate Word(s: string) { forall i :: 0 <= i < |s| ==> !EndsWord(s[i]) }

  lemma {:induction false} ScalarScan(env: Env, s: Scan, rest: string, n: nat)
    requires s == Scan(false, false, [], s.charge)
    ensures ScanFrom(env, Scalar, s, rest) == Some(n)
       <==> n <= |rest| && Word(rest[..n]) && (n == 0 || s.charge + 64 * n <= env.cap)
            && (if n < |rest| then Special(Scalar, false, rest[n]) && s.charge + 64 * n <= env.cap else env.ended)
    decreases |rest|
  {
    if rest != "" && !Special(Scalar, false, rest[0]) {
      var t := s.(charge := s.charge + 64);
      if 0 < n <= |rest| {
        ScalarScan(env, t, rest[1..], n - 1);
        Front(rest, n);
        assert Word(rest[..n]) <==> Word(rest[1..][..n - 1]) by { WordTail(rest[0], rest[1..][..n - 1]); }
      }
    }
  }

  lemma Front(rest: string, n: nat)
    requires 0 < n <= |rest|
    ensures rest[..n] == [rest[0]] + rest[1..][..n - 1]
    ensures n < |rest| ==> rest[1..][n - 1] == rest[n]
  {
  }

  lemma WordTail(c: char, s: string)
    requires !Special(Scalar, false, c)
    ensures Word([c] + s) <==> Word(s)
  {
    if Word([c] + s) {
      forall i | 0 <= i < |s| ensures !Special(Scalar, false, s[i]) { assert ([c] + s)[i + 1] == s[i]; }
    }
  }

  /** Any other value is framed up to the first blank or delimiter, or the end if that is known. */
  lemma ScalarExtent(env: Env, text: string, n: nat)
    requires text != "" && KindOf(text[0]) == Scalar && env.cap >= 256
    ensures Extent(env, text) == Some(n)
       <==> n <= |text| && Word(text[..n]) && 256 + 64 * n <= env.cap
            && (if n < |text| then Special(Scalar, false, text[n]) else env.ended)
  {
    assert text[0..] == text;
    ScalarScan(env, StartScan(text[0]), text, n);
  }

  // ---- Complete values ----

  /** A string or group within the limits. */
  predicate Fits(env: Env, n: Node) {
    match n
    case Plain(_) => false
    case Str(body) => Body(body) && 256 + 64 * |body| <= env.cap
    case Group(open, inner) => Opener(open) && Admitted(env, inner)
  }

  /** The text is this string or group, and nothing else. */
  predicate Spells(env: Env, text: string, n: Node) { Fits(env, n) && text == Render(n) }

  /** The text is one bare word within the charge, and nothing else. */
  predicate WholeWord(env: Env, text: string) {
    text != "" && text[0] != '"' && !Opener(text[0]) && Word(text) && 256 + 64 * |text| <= env.cap
  }

  /** The text is one complete value. */
  ghost predicate Whole(env: Env, text: string) {
    WholeWord(env, text) || exists n :: Spells(env, text, n)
  }

  /** A text that ends a bare word. */
  predicate Delimits(env: Env, rest: string) { if rest == "" then env.ended else EndsWord(rest[0]) }

  lemma WholeStarts(env: Env, text: string)
    requires Whole(env, text)
    ensures text != "" && !Blank(text[0]) && !Closing(text[0])
  {
  }

  /** A complete value is framed, whatever delimiter follows it. */
  lemma WholeIsFramed(env: Env, text: string, rest: string)
    requires env.cap >= 256 && Whole(env, text) && Delimits(env, rest)
    ensures text != "" && !Blank(text[0])
    ensures Extent(env, text + rest) == Some(|text|)
  {
    if n :| Spells(env, text, n) {
      match n
      case Str(body) => StringIsFramed(env, body, rest);
      case Group(open, inner) => GroupIsFramed(env, open, inner, rest);
    } else {
      assert (text + rest)[..|text|] == text && (text + rest)[0] == text[0];
      ScalarExtent(env, text + rest, |text|);
    }
  }

  /** What is framed, cut out of its text, is a complete value. */
  lemma FramedIsWhole(env: Env, text: string, n: nat)
    requires env.cap >= 256 && text != "" && Extent(env, text) == Some(n) && n > 0
    ensures Whole(env, text[..n])
  {
    var cut := text[..n];
    assert cut[0] == text[0];
    if Opening(text[0]) {
      CompoundExtent(env, text, n);
      var f :| Admitted(env, f) && cut == Render(Group(text[0], f));
      assert Spells(env, cut, Group(text[0], f));
    } else if text[0] == '"' {
      QuotedExtent(env, text, n);
      var body :| Body(body) && 256 + 64 * |body| <= env.cap && cut == Render(Str(body));
      assert Spells(env, cut, Str(body));
    } else {
      ScalarExtent(env, text, n);
    }
  }

  /** The scan frames the whole of a text exactly when it is one complete value. */
  lemma WholeIffFramed(env: Env, text: string)
    requires env.cap >= 256 && env.ended && text != ""
    ensures Whole(env, text) <==> Extent(env, text) == Some(|text|)
  {
    assert text + "" == text && text[..|text|] == text;
    if Whole(env, text) { WholeIsFramed(env, text, ""); }
    if Extent(env, text) == Some(|text|) { FramedIsWhole(env, text, |text|); }
  }

  // ---- Bounded representation ----

  lemma {:induction false} CostBoundsLength(f: Forest)
    ensures 64 * |RenderAll(f)| <= AllCost(f)
    decreases f
  {
    match f
    case Nil =>
    case Then(n, tail) =>
      CostBoundsLength(tail);
      match n {
        case Plain(c) =>
        case Str(body) =>
        case Group(open, inner) => CostBoundsLength(inner);
      }
  }

  /** Whatever is framed is short enough for the charge limit: a value of n characters costs at least
      64 for each of them. */
  lemma ExtentIsBounded(env: Env, text: string)
    requires text != "" && env.cap >= 256 && Extent(env, text).Some?
    ensures 64 * Extent(env, text).value <= env.cap
  {
    var n := Extent(env, text).value;
    if Opening(text[0]) {
      CompoundExtent(env, text, n);
      var f :| Admitted(env, f) && text[..n] == Render(Group(text[0], f));
      CostBoundsLength(f);
      assert n == |RenderAll(f)| + 2;
    } else if text[0] == '"' {
      QuotedExtent(env, text, n);
      var body :| Body(body) && 256 + 64 * |body| <= env.cap && text[..n] == Render(Str(body));
    } else {
      ScalarExtent(env, text, n);
    }
  }
}
