/**
 The chunk-fed reader of a validator export.  Its fields are the buffer, cursor and byte count that
 the reader keeps; the source may answer every read with any non-empty short result.  Each method is
 specified by what it does to `Rest()`, the text not yet consumed: the unread part of the buffer, and
 what the reads to come will bring, up to the one that breaks.
 */
module VrpStream {
  import opened Basics
  import opened Wrappers
  import opened Bytes
  import opened VrpText
  import Utf8
  import opened VrpSource
  import N = VrpNesting
  import P = VrpPrefix

  const STREAM_CHUNK := 0x1_0000

  function Concat(fragments: seq<string>): string {
    if fragments == [] then "" else Concat(fragments[..|fragments| - 1]) + fragments[|fragments| - 1]
  }

  lemma ConcatMore(fragments: seq<string>, last: string)
    ensures Concat(fragments + [last]) == Concat(fragments) + last
  {
    assert (fragments + [last])[..|fragments|] == fragments;
  }

  /** An empty buffer adds nothing to what is ahead, ... */
  lemma NoFront(buf: string, ahead: string)
    requires buf == ""
    ensures buf[0..] + ahead == ahead
  {
  }

  /** ... and an empty slice nothing to what was taken. */
  lemma NoSlice(text: string, buf: string)
    ensures text + buf[0..0] == text
  {
  }

  lemma PastBlank(buf: string, pos: nat, ahead: string)
    requires pos < |buf| && Blank(buf[pos])
    ensures SkipBlanks(buf[pos..] + ahead) == SkipBlanks(buf[pos + 1..] + ahead)
  {
    assert (buf[pos..] + ahead)[1..] == buf[pos + 1..] + ahead;
  }

  /** Pattern search: the first special character at or after i, or the end of the buffer. */
  function NextSpecial(kind: Kind, inString: bool, s: string, i: nat): (j: nat)
    requires i <= |s|
    ensures i <= j <= |s|
    ensures forall k :: i <= k < j ==> !Special(kind, inString, s[k])
    ensures j < |s| ==> Special(kind, inString, s[j])
    decreases |s| - i
  {
    if i == |s| || Special(kind, inString, s[i]) then i else NextSpecial(kind, inString, s, i + 1)
  }

  /** Jumping over a run of plain characters and charging for all of them at once is the same as
      scanning them one by one: within the cap ... */
  lemma {:induction false} ScanRun(env: Env, kind: Kind, s: Scan, run: string, t: Scan)
    requires !s.escaped
    requires forall k :: 0 <= k < |run| ==> !Special(kind, s.inString, run[k])
    requires t == s.(charge := s.charge + 64 * |run|) && (t.charge <= env.cap || run == "")
    ensures N.Moves(env, kind, s, run, t)
    decreases |run|
  {
    if run != "" {
      ScanRun(env, kind, s.(charge := s.charge + 64), run[1..], t);
    }
  }

  /** ... and past it, where both refuse. */
  lemma {:induction false} ScanRunRefused(env: Env, kind: Kind, s: Scan, run: string, rest: string)
    requires !s.escaped
    requires forall k :: 0 <= k < |run| ==> !Special(kind, s.inString, run[k])
    requires s.charge + 64 * |run| > env.cap && run != ""
    ensures ScanFrom(env, kind, s, run + rest) == None
    decreases |run|
  {
    ScanPlain(env, kind, s, run[0], run[1..] + rest);
    assert [run[0]] + (run[1..] + rest) == run + rest;
    if s.charge + 64 <= env.cap {
      ScanRunRefused(env, kind, s.(charge := s.charge + 64), run[1..], rest);
    }
  }

  lemma ScanPlain(env: Env, kind: Kind, s: Scan, c: char, rest: string)
    requires !s.escaped && !Special(kind, s.inString, c)
    ensures ScanFrom(env, kind, s, [c] + rest)
         == if s.charge + 64 > env.cap then None
            else Plus(1, ScanFrom(env, kind, s.(charge := s.charge + 64), rest))
  {
    assert ([c] + rest)[1..] == rest;
  }

  /** A scan of `whole` that has taken `text` and has `todo` before it. */
  ghost predicate Tracks(env: Env, whole: string, text: string, todo: string, kind: Kind, s: Scan) {
    && whole == text + todo
    && whole != "" && kind == KindOf(whole[0])
    && Extent(env, whole) == Plus(|text|, ScanFrom(env, kind, s, todo))
  }

  lemma TrackStep(env: Env, whole: string, text: string, todo: string, kind: Kind, s: Scan)
    requires Tracks(env, whole, text, todo, kind, s) && todo != ""
    ensures match ScanChar(env, kind, s, todo[0])
            case Go(s') => Tracks(env, whole, text + [todo[0]], todo[1..], kind, s')
            case StopBefore => Extent(env, whole) == Some(|text|)
            case StopAfter => Extent(env, whole) == Some(|text| + 1)
            case Refuse => Extent(env, whole) == None
  {
    assert text + todo == (text + [todo[0]]) + todo[1..];
  }

  lemma TrackRun(env: Env, whole: string, text: string, run: string, rest: string, kind: Kind, s: Scan)
    requires Tracks(env, whole, text, run + rest, kind, s) && !s.escaped
    requires forall k :: 0 <= k < |run| ==> !Special(kind, s.inString, run[k])
    ensures var s' := s.(charge := s.charge + 64 * |run|);
            if s'.charge <= env.cap || run == "" then Tracks(env, whole, text + run, rest, kind, s')
            else Extent(env, whole) == None
  {
    if s.charge + 64 * |run| <= env.cap || run == "" {
      var t := s.(charge := s.charge + 64 * |run|);
      ScanRun(env, kind, s, run, t);
      N.MovesOn(env, kind, s, run, t, rest);
    } else {
      ScanRunRefused(env, kind, s, run, rest);
    }
    assert text + (run + rest) == (text + run) + rest;
  }

  lemma TrackEnd(env: Env, whole: string, text: string, kind: Kind, s: Scan)
    requires Tracks(env, whole, text, "", kind, s)
    ensures Extent(env, whole) == if kind == Scalar && env.ended then Some(|text|) else None
  {
  }

  lemma TrackStart(env: Env, buf: string, pos: nat, ahead: string)
    requires pos < |buf|
    ensures var index := pos + StartOffset(buf[pos]);
            Tracks(env, buf[pos..] + ahead, "" + buf[pos..index],
                   buf[index..] + ahead, KindOf(buf[pos]), StartScan(buf[pos]))
  {
    var index := pos + StartOffset(buf[pos]);
    var whole := buf[pos..] + ahead;
    assert whole[0] == buf[pos] && whole[StartOffset(buf[pos])..] == buf[index..] + ahead;
    assert "" + buf[pos..index] == buf[pos..index];
  }

  /** What the loop does with a special character, branch by branch. */
  method LookAt(env: Env, kind: Kind, s: Scan, c: char) returns (step: Step)
    requires !s.escaped
    ensures step == Look(env, kind, s, c)
  {
    var inString, escaped, stack := s.inString, false, s.stack;
    var charge := s.charge + 64 + if inString then 0 else 256;
    if kind == Scalar { return StopBefore; }
    if inString {
      if c == '\\' {
        escaped := true;
      } else if c == '"' {
        inString := false;
        if kind == Quoted { return StopAfter; }
      }
    } else if c == '"' {
      inString := true;
    } else if Opening(c) {
      stack := stack + [c];
      if |stack| > env.recursion { return Refuse; }
    } else if Closing(c) {
      if stack == [] || !Pairs(stack[|stack| - 1], c) { return Refuse; }
      stack := stack[..|stack| - 1];
      if stack == [] { return StopAfter; }
    }
    return Go(Scan(inString, escaped, stack, charge));
  }

  lemma Appended(buf: string, pos: nat, t: string, ahead: string)
    requires pos <= |buf|
    ensures (buf + t)[pos..] + ahead == buf[pos..] + (t + ahead)
  {
  }

  datatype Advanced = Stuck | Found(end: nat) | Onward(index: nat, s: Scan)

  lemma SplitAt(buf: string, i: nat, j: nat, ahead: string)
    requires i <= j <= |buf|
    ensures buf[i..] + ahead == buf[i..j] + (buf[j..] + ahead)
  {
  }

  /** What a turn of the scan, started at `index`, has established. */
  ghost predicate Moved(env: Env, kind: Kind, buf: string, index: nat,
                        ahead: string, whole: string, text: string, r: Advanced)
    requires index <= |buf| && whole != ""
  {
    match r
    case Stuck => Extent(env, whole) == None
    case Found(end) => index <= end <= |buf| && Extent(env, whole) == Some(|text| + (end - index))
    case Onward(i, s') =>
      index < i <= |buf| && Tracks(env, whole, text + buf[index..i], buf[i..] + ahead, kind, s')
  }

  /** The characters a turn has looked at are those it has passed, in order and each once; a turn that
      finds the end of a bare word has also looked at the delimiter behind it. */
  ghost predicate Looked(kind: Kind, buf: string, index: nat, r: Advanced, seen: string)
    requires index <= |buf|
  {
    match r
    case Stuck => seen <= buf[index..]
    case Found(end) =>
      && index <= end <= |buf|
      && (seen == buf[index..end] || (kind == Scalar && end < |buf| && seen == buf[index..end] + [buf[end]]))
    case Onward(i, _) => index <= i <= |buf| && seen == buf[index..i]
  }

  /** One turn of the scanning loop inside the current buffer: past an escaped character, or on to
      the next special character and past it. */
  method Advance(limits: Env, kind: Kind, s: Scan, buf: string, index: nat, ghost env: Env,
                 ghost ahead: string, ghost whole: string, ghost text: string)
    returns (r: Advanced, ghost seen: string)
    requires index < |buf| && Tracks(env, whole, text, buf[index..] + ahead, kind, s) && SameLimits(limits, env)
    ensures Moved(env, kind, buf, index, ahead, whole, text, r) && Looked(kind, buf, index, r, seen)
  {
    if s.escaped {
      StepIn(env, kind, s, buf, index, ahead, whole, text);
      assert buf[index..index + 1] == [buf[index]];
      return Onward(index + 1, s.(escaped := false, charge := s.charge + 64)), [buf[index]];
    }
    r, seen := Jump(limits, kind, s, buf, index, env, ahead, whole, text);
  }

  /** Charges for a run of plain characters at once and looks at the special character behind it. */
  method Jump(limits: Env, kind: Kind, s: Scan, buf: string, index: nat, ghost env: Env,
              ghost ahead: string, ghost whole: string, ghost text: string)
    returns (r: Advanced, ghost seen: string)
    requires index < |buf| && Tracks(env, whole, text, buf[index..] + ahead, kind, s)
    requires !s.escaped && SameLimits(limits, env)
    ensures Moved(env, kind, buf, index, ahead, whole, text, r) && Looked(kind, buf, index, r, seen)
  {
    var boundary := NextSpecial(kind, s.inString, buf, index);
    ghost var run := buf[index..boundary];
    RunIn(env, kind, s, buf, index, boundary, ahead, whole, text);
    var charged := s.(charge := s.charge + 64 * (boundary - index));
    if charged.charge > limits.cap {
      return Stuck, buf[index..Min(boundary + 1, |buf|)];
    }
    if boundary == |buf| { return Onward(boundary, charged), run; }
    r, seen := LookPast(limits, kind, charged, buf, boundary, env, ahead, whole, text + run);
    JumpedThen(env, kind, buf, index, boundary, ahead, whole, text, r, seen);
    seen := run + seen;
  }

  /** A run of plain characters in the buffer, charged at once. */
  lemma RunIn(env: Env, kind: Kind, s: Scan, buf: string, index: nat, boundary: nat,
              ahead: string, whole: string, text: string)
    requires index <= boundary <= |buf| && index < |buf| && !s.escaped
    requires Tracks(env, whole, text, buf[index..] + ahead, kind, s)
    requires forall k :: index <= k < boundary ==> !Special(kind, s.inString, buf[k])
    requires boundary < |buf| ==> Special(kind, s.inString, buf[boundary])
    ensures var s' := s.(charge := s.charge + 64 * (boundary - index));
            if s'.charge <= env.cap
            then Tracks(env, whole, text + buf[index..boundary], buf[boundary..] + ahead, kind, s')
            else Extent(env, whole) == None
  {
    SplitAt(buf, index, boundary, ahead);
    TrackRun(env, whole, text, buf[index..boundary], buf[boundary..] + ahead, kind, s);
    if boundary == index { StepIn(env, kind, s, buf, index, ahead, whole, text); }
  }

  /** What was done behind a run of plain characters was done behind what came before the run. */
  lemma JumpedThen(env: Env, kind: Kind, buf: string, index: nat, boundary: nat, ahead: string,
                   whole: string, text: string, r: Advanced, seen: string)
    requires index <= boundary <= |buf| && whole != "" && Looked(kind, buf, boundary, r, seen)
    requires Moved(env, kind, buf, boundary, ahead, whole, text + buf[index..boundary], r)
    ensures Moved(env, kind, buf, index, ahead, whole, text, r)
    ensures Looked(kind, buf, index, r, buf[index..boundary] + seen)
  {
    LookedBehind(kind, buf, index, boundary, r, seen);
    if r.Onward? { Extended(text, buf, index, boundary, r.index); }
  }

  lemma LookedBehind(kind: Kind, buf: string, index: nat, boundary: nat, r: Advanced, seen: string)
    requires index <= boundary <= |buf| && Looked(kind, buf, boundary, r, seen)
    ensures Looked(kind, buf, index, r, buf[index..boundary] + seen)
  {
    var run := buf[index..boundary];
    match r
    case Stuck =>
      assert buf[index..] == run + buf[boundary..];
    case Found(end) =>
      assert buf[index..end] == run + buf[boundary..end];
    case Onward(i, _) =>
      assert buf[index..i] == run + buf[boundary..i];
  }

  lemma Extended(front: string, buf: string, i: nat, j: nat, k: nat)
    requires i <= j <= k <= |buf|
    ensures front + buf[i..j] + buf[j..k] == front + buf[i..k]
  {
  }

  /** The value at the front of `whole` is the parked text and the buffer from pos to end. */
  ghost predicate Frames(env: Env, whole: string, parked: string, buf: string, pos: nat, end: nat, ahead: string) {
    && whole != ""
    && pos <= end <= |buf|
    && Extent(env, whole) == Some(|parked| + (end - pos))
    && whole == (parked + buf[pos..end]) + (buf[end..] + ahead)
  }

  /** The scan has taken the parked text and the buffer from pos to index, and goes on there. */
  ghost predicate Scanning(env: Env, whole: string, parked: string, buf: string, pos: nat, index: nat, ahead: string,
                           text: string, kind: Kind, s: Scan)
  {
    && pos <= index <= |buf| && text == parked + buf[pos..index]
    && Tracks(env, whole, text, buf[index..] + ahead, kind, s)
  }

  /** A buffer that is read to its end is part of what was taken. */
  lemma BufferDone(env: Env, whole: string, parked: string, buf: string, pos: nat, ahead: string,
                   text: string, kind: Kind, s: Scan)
    requires Scanning(env, whole, parked, buf, pos, |buf|, ahead, text, kind, s)
    ensures text == parked + buf[pos..] && Tracks(env, whole, text, ahead, kind, s)
  {
    assert buf[|buf|..] + ahead == ahead && buf[pos..|buf|] == buf[pos..];
  }

  /** What a turn of the scan comes to. */
  lemma TurnTaken(env: Env, whole: string, parked: string, buf: string, pos: nat, index: nat, ahead: string,
                  text: string, kind: Kind, s: Scan, r: Advanced, seen: string)
    requires Scanning(env, whole, parked, buf, pos, index, ahead, text, kind, s)
    requires Moved(env, kind, buf, index, ahead, whole, text, r) && Looked(kind, buf, index, r, seen)
    ensures text + seen <= whole
    ensures match r
            case Stuck => Extent(env, whole) == None
            case Found(end) =>
              && Frames(env, whole, parked, buf, pos, end, ahead)
              && SeenOnce(kind, parked + buf[pos..end], text + seen)
            case Onward(i, next) =>
              index < i && Scanning(env, whole, parked, buf, pos, i, ahead, text + buf[index..i], kind, next)
  {
    LooksOn(kind, buf, pos, index, ahead, whole, parked, text, r, seen);
    match r
    case Stuck =>
    case Found(end) => FrameText(parked, buf, pos, index, end, ahead);
    case Onward(i, _) => Extended(parked, buf, pos, index, i);
  }

  lemma FrameText(parked: string, buf: string, pos: nat, index: nat, end: nat, ahead: string)
    requires pos <= index <= end <= |buf|
    ensures (parked + buf[pos..index]) + (buf[index..] + ahead) == (parked + buf[pos..end]) + (buf[end..] + ahead)
  {
    Extended(parked, buf, pos, index, end);
    SplitAt(buf, index, end, ahead);
    Assoc(parked + buf[pos..index], buf[index..end], buf[end..] + ahead);
  }

  /** Looks at the special character the scan has stopped on. */
  method LookPast(limits: Env, kind: Kind, s: Scan, buf: string, at: nat, ghost env: Env,
                  ghost ahead: string, ghost whole: string, ghost text: string)
    returns (r: Advanced, ghost seen: string)
    requires at < |buf| && Tracks(env, whole, text, buf[at..] + ahead, kind, s)
    requires !s.escaped && Special(kind, s.inString, buf[at]) && s.charge <= env.cap && SameLimits(limits, env)
    ensures Moved(env, kind, buf, at, ahead, whole, text, r) && Looked(kind, buf, at, r, seen)
  {
    StepIn(env, kind, s, buf, at, ahead, whole, text);
    seen := [buf[at]];
    assert buf[at..at + 1] == seen && buf[at..at] + seen == seen;
    var look := LookAt(limits, kind, s, buf[at]);
    match look
    case Refuse => r := Stuck;
    case StopBefore => r := Found(at);
    case StopAfter => r := Found(at + 1);
    case Go(next) => r := Onward(at + 1, next);
  }

  lemma StepIn(env: Env, kind: Kind, s: Scan, buf: string, i: nat, ahead: string, whole: string, text: string)
    requires i < |buf| && Tracks(env, whole, text, buf[i..] + ahead, kind, s)
    ensures match ScanChar(env, kind, s, buf[i])
            case Go(s') => Tracks(env, whole, text + [buf[i]], buf[i + 1..] + ahead, kind, s')
            case StopBefore => Extent(env, whole) == Some(|text|)
            case StopAfter => Extent(env, whole) == Some(|text| + 1)
            case Refuse => Extent(env, whole) == None
  {
    var todo := buf[i..] + ahead;
    assert todo[0] == buf[i] && todo[1..] == buf[i + 1..] + ahead;
    TrackStep(env, whole, text, todo, kind, s);
  }

  /** The scan of a value has looked at each of its characters once, in order, and at no other but the
      delimiter behind a bare word.  (That the kind of a value is read off its first character beforehand
      is not counted: it is passed for a string or a bracket, and comes up again only in a bare word.) */
  ghost predicate SeenOnce(kind: Kind, value: string, seen: string) {
    seen == value || (kind == Scalar && |seen| == |value| + 1 && value <= seen)
  }

  lemma LooksOn(kind: Kind, buf: string, pos: nat, index: nat, ahead: string, whole: string, parked: string,
                text: string, r: Advanced, seen: string)
    requires pos <= index <= |buf| && text == parked + buf[pos..index] && whole == text + (buf[index..] + ahead)
    requires Looked(kind, buf, index, r, seen)
    ensures text + seen <= whole
    ensures r.Found? ==> pos <= r.end <= |buf| && SeenOnce(kind, parked + buf[pos..r.end], text + seen)
  {
    assert seen <= buf[index..];
    if r.Found? { Extended(parked, buf, pos, index, r.end); }
  }

  /** The limits the code works with are those of the meaning; whether the text ends where the reads do is
      not for the code to know. */
  ghost predicate SameLimits(limits: Env, env: Env) { env == limits.(ended := env.ended) }

  datatype Filled = More | Ended | Broken

  datatype Peeked = Char(c: char) | End | Failed

  datatype Mark = Close | Comma | Wrong

  datatype Framed = Framed(fragments: seq<string>, end: nat)

  class VrpJsonStream {
    const src: Source
    const limits: Env
    ghost const env: Env

    var total: nat
    var buf: string
    var pos: nat
    var eof: bool
    var pending: Utf8.Pending

    constructor (src: Source, limits: Env)
      requires src.Admits(0)
      ensures this.src == src && Valid() && total == 0
      ensures env == limits.(ended := Serve(src, 0, []).clean) && Rest() == Serve(src, 0, []).text
    {
      this.src, this.limits := src, limits;
      env := limits.(ended := Serve(src, 0, []).clean);
      total, buf, pos, eof, pending := 0, "", 0, false, [];
      new;
      NoFront(buf, Ahead());
    }

    /** The buffer never holds more than two chunks, and no more bytes are taken than admitted.  Whether the
        reads to come will break is settled from the start. */
    ghost predicate Valid()
      reads this
    {
      && SameLimits(limits, env)
      && src.Admits(total)
      && pos <= |buf| <= 2 * src.chunk
      && (eof ==> total == |src.input| && pending == [])
      && env.ended == Serve(src, total, pending).clean
    }

    /** Text the reads to come will bring, up to the one that breaks. */
    ghost function Ahead(): string
      reads this
      requires Valid()
    {
      Serve(src, total, pending).text
    }

    ghost function Rest(): string
      reads this
      requires Valid()
    {
      buf[pos..] + Ahead()
    }

    /** `fp.read`: some bytes, at most what is asked for, and nothing only at the end of the input. */
    method Read() returns (raw: bytes)
      requires Valid()
      ensures NextRead(src, total, raw) && (raw == [] <==> total == |src.input|)
      ensures |raw| <= Min(src.chunk, src.maxBytes - total + 1)
    {
      if total == |src.input| { return []; }
      raw := src.input[total..total + src.ReadLength(total)];
    }

    /** More text, the end of the input, or an error.  An error means that nothing more was to come. */
    method Fill() returns (r: Filled)
      requires Valid() && |buf| <= src.chunk
      modifies this
      ensures total <= src.maxBytes + 1
      ensures r.Broken? ==> !env.ended && old(Ahead()) == ""
      ensures !r.Broken? ==> Valid() && Rest() == old(Rest()) && pos == old(pos) && old(buf) <= buf
      ensures r.More? ==> total > old(total)
      ensures r.Ended? ==> Ahead() == "" && env.ended && eof && buf == old(buf) && total == old(total)
    {
      if eof { return Ended; }
      var raw := Read();
      if total + |raw| > src.maxBytes {
        total := total + |raw|;
        return Broken;
      }
      r := Absorb(raw);
    }

    /** Decodes one read, admitted whole, onto the buffer. */
    method Absorb(raw: bytes) returns (r: Filled)
      requires Valid() && |buf| + |raw| <= 2 * src.chunk && !eof && total + |raw| <= src.maxBytes
      requires NextRead(src, total, raw)
      modifies this
      ensures total == old(total) + |raw|
      ensures r.Broken? ==> !env.ended && old(Ahead()) == ""
      ensures !r.Broken? ==> Valid() && Rest() == old(Rest()) && pos == old(pos) && old(buf) <= buf
      ensures r.More? ==> raw != []
      ensures r.Ended? ==> Ahead() == "" && env.ended && eof && buf == old(buf) && raw == []
    {
      var d := Utf8.Decode(pending, raw);
      ghost var next := total + |raw|;
      ServeOne(src, total, pending, raw, d, next);
      if !d.ok || (raw == [] && d.pending != []) {
        total, eof := total + |raw|, raw == [];
        return Broken;
      }
      ghost var later := Serve(src, next, d.pending);
      Appended(buf, pos, d.text, later.text);
      Append(|raw|, d.text, d.pending, next, later);
      r := if raw == [] then Ended else More;
    }

    /** Moves the text of a read from what is ahead to the buffer. */
    method Append(n: nat, text: string, rest: Utf8.Pending, ghost next: nat, ghost later: Served)
      requires Valid() && |buf| + |text| <= 2 * src.chunk && next == total + n && src.Admits(next)
      requires later == Serve(src, next, rest) && later.clean == env.ended
      requires n == 0 ==> next == |src.input| && rest == []
      requires Rest() == (buf + text)[pos..] + later.text
      modifies this
      ensures Valid() && Rest() == old(Rest()) && pos == old(pos) && buf == old(buf) + text
      ensures total == next && eof == (n == 0) && Ahead() == later.text
    {
      total, eof := total + n, n == 0;
      buf, pending := buf + text, rest;
    }

    method Compact()
      requires Valid()
      modifies this
      ensures Valid() && Rest() == old(Rest())
      ensures total == old(total) && eof == old(eof)
      ensures buf[pos..] == old(buf[pos..])
      ensures old(pos) == old(|buf|) ==> |buf| <= src.chunk && pos == |buf|
    {
      if pos > src.chunk {
        buf := buf[pos..];
        pos := 0;
      }
    }

    /** Skips the blanks at the front of the buffer. */
    method SkipBuffered()
      requires Valid()
      modifies this`pos
      ensures Valid() && Ahead() == old(Ahead())
      ensures SkipBlanks(Rest()) == SkipBlanks(old(Rest()))
      ensures pos < |buf| ==> !Blank(buf[pos])
    {
      ghost var ahead := Ahead();
      while pos < |buf| && Blank(buf[pos])
        invariant Valid() && Ahead() == ahead
        invariant SkipBlanks(buf[pos..] + ahead) == SkipBlanks(old(Rest()))
        decreases |buf| - pos
      {
        PastBlank(buf, pos, ahead);
        pos := pos + 1;
      }
    }

    /** Skips blanks; the character at the front of what is left, without consuming it. */
    method Peek() returns (r: Peeked)
      requires Valid()
      modifies this
      ensures r.Failed? ==> !env.ended && SkipBlanks(old(Rest())) == ""
      ensures !r.Failed? ==>
                Valid() && Rest() == SkipBlanks(old(Rest()))
      ensures r.Char? ==> pos < |buf| && buf[pos] == r.c && Rest() != "" && Rest()[0] == r.c
      ensures r.End? ==> Rest() == "" && env.ended && total == |src.input| <= src.maxBytes
    {
      while true
        invariant Valid()
        invariant SkipBlanks(Rest()) == SkipBlanks(old(Rest()))
        decreases |src.input| - total
      {
        SkipBuffered();
        if pos < |buf| {
          return Char(buf[pos]);
        }
        Compact();
        ghost var ahead := Ahead();
        assert Rest() == ahead;
        var f := Fill();
        match f
        case Broken => return Failed;
        case Ended =>
          assert Rest() == "";
          return End;
        case More =>
      }
    }

    /** Consumes one expected character. */
    method Take(token: char) returns (ok: bool)
      requires Valid()
      modifies this
      ensures ok ==>
                && At(SkipBlanks(old(Rest())), token)
                && Valid() && Rest() == SkipBlanks(old(Rest()))[1..]
      ensures !ok ==> !At(SkipBlanks(old(Rest())), token)
    {
      var p := Peek();
      if p != Char(token) { return false; }
      assert Rest()[1..] == buf[pos + 1..] + Ahead();
      pos := pos + 1;
      Compact();
      return true;
    }

    /** Parks the exhausted buffer as a fragment and asks for more text. */
    method Refill(fragments: seq<string>, ghost kind: Kind, ghost s: Scan, ghost whole: string, ghost text: string)
      returns (f: Filled, parked: seq<string>)
      requires Valid() && Scanning(env, whole, Concat(fragments), buf, pos, |buf|, Ahead(), text, kind, s)
      modifies this
      ensures text == Concat(parked)
      ensures f.Broken? ==> Extent(env, whole) == None
      ensures !f.Broken? ==>
                && Valid() && pos == 0
                && Scanning(env, whole, text, buf, 0, 0, Ahead(), text, kind, s)
      ensures f.More? ==> total > old(total)
      ensures f.Ended? ==>
                if kind == Scalar then Frames(env, whole, text, buf, 0, 0, Ahead()) else Extent(env, whole) == None
    {
      parked := fragments + [buf[pos..]];
      ConcatMore(fragments, buf[pos..]);
      ghost var ahead := Ahead();
      BufferDone(env, whole, Concat(fragments), buf, pos, ahead, text, kind, s);
      buf, pos := "", 0;
      NoFront(buf, ahead);
      f := Fill();
      if f.Broken? {
        TrackEnd(env, whole, text, kind, s);
      } else {
        NoSlice(text, buf);
        if f.Ended? {
          NoFront(buf, Ahead());
          TrackEnd(env, whole, text, kind, s);
        }
      }
    }

    /** Finds the end of the value at the cursor, parking each exhausted buffer as a fragment. */
    method ValueEnd() returns (r: Option<Framed>, ghost seen: string)
      requires Valid() && pos < |buf|
      modifies this
      ensures seen <= old(Rest())
      ensures r.None? ==> Extent(env, old(Rest())) == None
      ensures r.Some? ==>
                && Valid()
                && Frames(env, old(Rest()), Concat(r.value.fragments), buf, pos, r.value.end, Ahead())
                && SeenOnce(KindOf(old(buf[pos])), Concat(r.value.fragments) + buf[pos..r.value.end], seen)
    {
      ghost var whole := Rest();
      var first := buf[pos];
      var kind := KindOf(first);
      var fragments: seq<string> := [];
      var s := StartScan(first);
      var index: nat := pos + StartOffset(first);
      ghost var text := Concat(fragments) + buf[pos..index];
      TrackStart(env, buf, pos, Ahead());
      while true
        invariant Valid()
        invariant Scanning(env, whole, Concat(fragments), buf, pos, index, Ahead(), text, kind, s)
        decreases |src.input| - total, |buf| - index
      {
        if index == |buf| {
          var f;
          seen := text;
          f, fragments := Refill(fragments, kind, s, whole, text);
          index := 0;
          if f.Broken? || (f.Ended? && kind != Scalar) { return None, seen; }
          if f.More? { continue; }
          return Some(Framed(fragments, index)), seen;
        }
        var a;
        a, seen := Advance(limits, kind, s, buf, index, env, Ahead(), whole, text);
        TurnTaken(env, whole, Concat(fragments), buf, pos, index, Ahead(), text, kind, s, a, seen);
        seen := text + seen;
        match a
        case Stuck => return None, seen;
        case Found(end) => return Some(Framed(fragments, end)), seen;
        case Onward(i, next) =>
          text := text + buf[index..i];
          s, index := next, i;
      }
    }

    /** One complete value, decoded once. */
    method NextValue() returns (v: Option<Json>)
      requires Valid()
      modifies this
      ensures v.None? ==> Value(env, old(Rest())) == None
      ensures v.Some? ==>
                && Valid()
                && Value(env, old(Rest())) == Some(Taken(v.value, Rest()))
    {
      var p := Peek();
      if !p.Char? { return None; }
      ghost var r := Rest();
      var f, seen := ValueEnd();
      if f.None? { return None; }
      var text := Concat(f.value.fragments) + buf[pos..f.value.end];
      assert r[..|text|] == text && r[|text|..] == buf[f.value.end..] + Ahead();
      v := limits.decode(text);
      if v.None? { return None; }
      pos := f.value.end;
      assert Rest() == r[|text|..];
      Compact();
    }

    /** The separator after an entry or a member. */
    method ReadSeparator(close: char) returns (s: Mark)
      requires Valid()
      modifies this
      ensures s.Wrong? ==>
                AfterItem(close, old(Rest())) == Unexpected || AfterItem(close, old(Rest())) == Another("")
      ensures !s.Wrong? ==> Valid()
      ensures s.Close? ==> AfterItem(close, old(Rest())) == Closed(Rest())
      ensures s.Comma? ==> AfterItem(close, old(Rest())) == Another(Rest())
    {
      SkipBlanksTwice(Rest());
      var p := Peek();
      if p.Failed? { return Wrong; }
      if p == Char(close) {
        var ok := Take(close);
        return if ok then Close else Wrong;
      }
      var ok := Take(',');
      if !ok { return Wrong; }
      p := Peek();
      return if p.Failed? || p == Char(close) then Wrong else Comma;
    }

    /** One entry of the ROA array and what separates it from the next. */
    method ReadEntry(acc: seq<Json>) returns (out: seq<Json>, s: Mark)
      requires Valid()
      modifies this
      ensures s.Wrong? ==> Items(env, old(Rest()), acc) == Parsed(out, None)
      ensures !s.Wrong? ==> Valid()
      ensures s.Close? ==> Items(env, old(Rest()), acc) == Parsed(out, Some(Rest()))
      ensures s.Comma? ==> Items(env, old(Rest()), acc) == Items(env, Rest(), out) && |Rest()| < |old(Rest())|
    {
      var v := NextValue();
      if v.None? || !v.value.JObject? { return acc, Wrong; }
      out := acc + [v.value];
      s := ReadSeparator(']');
    }

    /** The ROA array; `out` collects what the generator yields. */
    method ReadRoas(acc: seq<Json>) returns (out: seq<Json>, ok: bool)
      requires Valid()
      modifies this
      ensures ok ==>
                && Valid()
                && Roas(env, old(Rest()), acc) == Parsed(out, Some(Rest()))
      ensures !ok ==> Roas(env, old(Rest()), acc) == Parsed(out, None)
    {
      out := acc;
      ok := Take('[');
      if !ok { return; }
      SkipBlanksTwice(Rest());
      var p := Peek();
      if p.Failed? { return out, false; }
      if p == Char(']') {
        ok := Take(']');
        return;
      }
      out, ok := ReadItems(acc);
    }

    method ReadItems(acc: seq<Json>) returns (out: seq<Json>, ok: bool)
      requires Valid()
      modifies this
      ensures ok ==>
                && Valid()
                && Items(env, old(Rest()), acc) == Parsed(out, Some(Rest()))
      ensures !ok ==> Items(env, old(Rest()), acc) == Parsed(out, None)
    {
      out := acc;
      ghost var spec := Items(env, Rest(), acc);
      while true
        invariant Valid()
        invariant spec == Items(env, Rest(), out)
        decreases |Rest()|
      {
        var s;
        out, s := ReadEntry(out);
        if s.Wrong? { return out, false; }
        if s.Close? { return out, true; }
      }
    }

    /** A string that is no key yet and fits the key budget. */
    method ReadName(h: Header) returns (key: Option<string>)
      requires Valid()
      modifies this
      ensures key.None? ==> !Names(Value(env, old(Rest())), h, limits.cap)
      ensures key.Some? ==>
                && Valid() && Value(env, old(Rest())) == Some(Taken(JString(key.value), Rest()))
                && Names(Value(env, old(Rest())), h, limits.cap)
    {
      var v := NextValue();
      if v.None? || !v.value.JString? || v.value.s in h.seen { return None; }
      var keyMemory := h.keyMemory + KeyCost(v.value.s);
      return if keyMemory > limits.cap then None else Some(v.value.s);
    }

    /** A key of the top-level object, and its colon. */
    method ReadKey(h: Header) returns (k: Option<(string, Header)>)
      requires Valid()
      modifies this
      ensures k.None? ==> Key(env, old(Rest()), h) == None
      ensures k.Some? ==> Valid() && Key(env, old(Rest()), h) == Some((k.value.0, k.value.1, Rest()))
    {
      ghost var rest := Rest();
      var key := ReadName(h);
      if key.None? {
        KeyRefused(env, rest, h);
        return None;
      }
      ghost var afterKey := Rest();
      KeyThenColon(env, rest, h, key.value, afterKey);
      var ok := Take(':');
      if !ok { return None; }
      return Some((key.value, After(h, key.value)));
    }

    /** The value of one member. */
    method ReadBody(key: string, acc: seq<Json>) returns (out: seq<Json>, ok: bool)
      requires Valid()
      modifies this
      ensures ok ==>
                && Valid()
                && Body(env, key, old(Rest()), acc) == Parsed(out, Some(Rest()))
      ensures !ok ==> Body(env, key, old(Rest()), acc) == Parsed(out, None)
    {
      if key == "roas" {
        out, ok := ReadRoas(acc);
      } else {
        var v := NextValue();
        out, ok := acc, v.Some?;
      }
    }

    /** One member of the top-level object and what separates it from the next. */
    method ReadMember(h: Header, acc: seq<Json>) returns (out: seq<Json>, h': Header, s: Mark)
      requires Valid()
      modifies this
      ensures s.Wrong? ==> Members(env, old(Rest()), h, acc) == (Parsed(out, None), false)
      ensures !s.Wrong? ==> Valid()
      ensures s.Close? ==> Members(env, old(Rest()), h, acc) == (Parsed(out, Some(Rest())), h'.found)
      ensures s.Comma? ==>
                && Members(env, old(Rest()), h, acc) == Members(env, Rest(), h', out)
                && |Rest()| < |old(Rest())|
    {
      var k := ReadKey(h);
      if k.None? { return acc, h, Wrong; }
      h' := k.value.1;
      MemberThenRest(env, old(Rest()), h, acc, k.value.0, h', Rest(), Body(env, k.value.0, Rest(), acc));
      var ok;
      out, ok := ReadBody(k.value.0, acc);
      if !ok { return out, h', Wrong; }
      s := ReadSeparator('}');
    }

    method ReadMembers() returns (out: seq<Json>, found: bool, ok: bool)
      requires Valid()
      modifies this
      ensures ok ==>
                && Valid()
                && Members(env, old(Rest()), Header({}, 0, false), []) == (Parsed(out, Some(Rest())), found)
      ensures !ok ==> Members(env, old(Rest()), Header({}, 0, false), []) == (Parsed(out, None), false)
    {
      out := [];
      var h := Header({}, 0, false);
      ghost var spec := Members(env, Rest(), h, []);
      while true
        invariant Valid()
        invariant spec == Members(env, Rest(), h, out)
        decreases |Rest()|
      {
        var s;
        out, h, s := ReadMember(h, out);
        if s.Wrong? { return out, false, false; }
        if s.Close? { return out, h.found, true; }
      }
    }

    /** The top-level object, from its opening brace. */
    method ReadObject() returns (out: seq<Json>, ok: bool)
      requires Valid() && At(Rest(), '{')
      modifies this
      ensures ok ==>
                && Valid()
                && Enclosed(env, old(Rest())) == (Parsed(out, Some(Rest())), true)
      ensures !ok ==>
                Enclosed(env, old(Rest())).0.entries == out && !Closes(Enclosed(env, old(Rest())))
    {
      out := [];
      ok := Take('{');
      if !ok { return; }
      SkipBlanksTwice(Rest());
      var p := Peek();
      if p.Failed? || p == Char('}') { return out, false; }
      var found;
      out, found, ok := ReadMembers();
      ok := ok && found;
    }

    /** The complete export, from the first read to the end of input. */
    method ReadDocument() returns (out: seq<Json>, ok: bool)
      requires Valid()
      modifies this
      ensures ok <==> env.ended && Document(env, old(Rest())).accepted
      ensures out == Document(env, old(Rest())).entries
    {
      SkipBlanksTwice(Rest());
      var p := Peek();
      if p == Char('[') {
        out, ok := ReadRoas([]);
      } else if p == Char('{') {
        out, ok := ReadObject();
      } else {
        return [], false;
      }
      if ok {
        p := Peek();
        ok := p.End?;
      }
    }
  }

  function EnvFor(maxBytes: int, recursion: int, decode: string -> Option<Json>): Env {
    Env(Max(MAX_VRP_BYTES, maxBytes), recursion, decode, true)
  }

  /** The source as the reader asks it. */
  function SourceFor(input: bytes, maxBytes: int, chunkSize: int, cut: nat -> nat): Source {
    Source(input, maxBytes, Min(chunkSize, maxBytes + 1), cut)
  }

  /** Streams an export, whatever its reads return.  What is yielded is what the text of the reads before
      the one that breaks holds.  Whether the export is accepted, and then what it yields, is a function
      of the bytes and the limit alone: neither the chunk size nor the length of any read shows.  A refused
      export has yielded an initial part of what its admitted text holds. */
  method IterRoas(
    input: bytes, maxBytes: int, chunkSize: int, cut: nat -> nat, recursion: int, decode: string -> Option<Json>)
    returns (out: seq<Json>, ok: bool)
    ensures maxBytes <= 0 || chunkSize <= 0 ==> !ok && out == []
    ensures maxBytes > 0 && chunkSize > 0 ==>
              var served := Serve(SourceFor(input, maxBytes, chunkSize, cut), 0, []);
              out == Document(EnvFor(maxBytes, recursion, decode).(ended := served.clean), served.text).entries
    ensures maxBytes > 0 && chunkSize > 0 ==>
              var doc := Document(EnvFor(maxBytes, recursion, decode), AdmittedText(input, maxBytes));
              && out <= doc.entries
              && (ok <==> Acceptable(input, maxBytes) && doc.accepted)
              && (Acceptable(input, maxBytes) ==> out == doc.entries)
  {
    if maxBytes <= 0 || chunkSize <= 0 { return [], false; }
    var src := SourceFor(input, maxBytes, chunkSize, cut);
    var limits := EnvFor(maxBytes, recursion, decode);
    ServedFromStart(src);
    ghost var text, served := AdmittedText(input, maxBytes), Serve(src, 0, []);
    assert text == served.text + text[|served.text|..];
    if !served.clean {
      P.DocumentGoesOn(limits.(ended := false), limits, served.text, text[|served.text|..]);
    }
    var stream := new VrpJsonStream(src, limits);
    out, ok := stream.ReadDocument();
  }

  /** What an input yields when it is read byte by byte: all that its admitted text holds. */
  function AllEntries(input: bytes, maxBytes: nat, recursion: int, decode: string -> Option<Json>): seq<Json> {
    Document(EnvFor(maxBytes, recursion, decode).(ended := Acceptable(input, maxBytes)),
             AdmittedText(input, maxBytes)).entries
  }

  /** The same bytes, read one at a time and all at once.  Both agree on acceptance; they yield the same
      entries if and only if the bytes are sound or hold no entry. */
  method ReadBothWays(input: bytes, maxBytes: int, recursion: int, decode: string -> Option<Json>)
    returns (slowly: seq<Json>, atOnce: seq<Json>, ok: bool)
    requires maxBytes > 0
    ensures ok <==> Acceptable(input, maxBytes)
                    && Document(EnvFor(maxBytes, recursion, decode), AdmittedText(input, maxBytes)).accepted
    ensures slowly == AllEntries(input, maxBytes, recursion, decode)
    ensures slowly == atOnce <==> Sound(input, maxBytes) || AllEntries(input, maxBytes, recursion, decode) == []
  {
    var whole := Min(|input|, maxBytes) + 1;
    var single, all: nat -> nat := _ => 1, _ => |input|;
    ServedFromStart(SourceFor(input, maxBytes, 1, single));
    ServedFromStart(SourceFor(input, maxBytes, whole, all));
    if !Sound(input, maxBytes) { ServedAtOnce(SourceFor(input, maxBytes, whole, all)); }
    slowly, ok := IterRoas(input, maxBytes, 1, single, recursion, decode);
    var same;
    atOnce, same := IterRoas(input, maxBytes, whole, all, recursion, decode);
    assert ok == same;
  }

  const UNSOUND: bytes := [0x5B, 0x7B, 0x7D, 0xFF]

  /** They can differ: an array cut off by a byte that is not UTF-8 after its first entry. */
  lemma UnsoundExample(maxBytes: int, recursion: int, decode: string -> Option<Json>, v: Json)
    requires maxBytes >= 4 && v.JObject? && decode("{}") == Some(v)
    ensures !Sound(UNSOUND, maxBytes)
    ensures AllEntries(UNSOUND, maxBytes, recursion, decode) == [v]
  {
    UnsoundText();
    assert UNSOUND[..4] == UNSOUND;
    var env := EnvFor(maxBytes, recursion, decode).(ended := Acceptable(UNSOUND, maxBytes));
    assert "[{}"[1..] == "{}" && SkipBlanks("{}") == "{}";
    OneEntry(env, v);
  }

  lemma UnsoundText()
    ensures Utf8.Decode([], UNSOUND) == Utf8.Decoded("[{}", [], false)
  {
    Utf8.DecodeEmit([], 0x5B, [0x7B, 0x7D, 0xFF]);
    Utf8.DecodeEmit([], 0x7B, [0x7D, 0xFF]);
    Utf8.DecodeEmit([], 0x7D, [0xFF]);
    assert [0x5B] + [0x7B, 0x7D, 0xFF] == UNSOUND && [0x7B] + [0x7D, 0xFF] == [0x7B, 0x7D, 0xFF];
    assert [0x7D] + [0xFF] == [0x7D, 0xFF] && ['['] + (['{'] + (['}'] + "")) == "[{}";
  }

  lemma OneEntry(env: Env, v: Json)
    requires env.cap >= 256 && v.JObject? && env.decode("{}") == Some(v)
    ensures Items(env, "{}", []) == Parsed([v], None)
  {
    N.GroupIsFramed(env, '{', N.Nil, "");
    assert N.Render(N.Group('{', N.Nil)) + "" == "{}";
    assert "{}"[..2] == "{}" && "{}"[2..] == "" && [] + [v] == [v];
  }
}
