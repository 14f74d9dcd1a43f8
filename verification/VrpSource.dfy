/**
 The source of an export: its bytes, the limits they are read within, and how much every read returns.
 What the reads bring until the end or until one of them breaks is a function of these; the lemmas say
 when it depends on the reads, and on what it does not.
 */
module VrpSource {
  import opened Basics
  import opened Bytes
  import Utf8

  /** `cut(p)` is how much the read at position p would return if it were asked for enough; positions
      only grow, so this covers every sequence of short reads. */
  datatype Source = Source(input: bytes, maxBytes: int, chunk: int, cut: nat -> nat) {
    predicate Admits(total: nat) { 1 <= chunk <= maxBytes + 1 && total <= Limit() }

    function Limit(): int { Min(|input|, maxBytes) }

    /** The length of the read at a position before the end: what the source gives, at least one byte and
        at most what is asked for and left. */
    function ReadLength(total: nat): (n: nat)
      requires Admits(total) && total < |input|
      ensures 1 <= n <= Min(chunk, maxBytes - total + 1) && total + n <= |input|
    {
      Max(1, Min(cut(total), Min(Min(chunk, maxBytes - total + 1), |input| - total)))
    }
  }

  /** The text of the reads before the one that breaks, and whether none does. */
  datatype Served = Served(text: string, clean: bool)

  /** What the reads from a position on bring, after bytes of an unfinished sequence. */
  function Serve(src: Source, total: nat, pending: Utf8.Pending): Served
    requires src.Admits(total)
    decreases |src.input| - total
  {
    if total == |src.input| then Served("", pending == [])
    else
      var next := total + src.ReadLength(total);
      if next > src.maxBytes then Served("", false)
      else
        var d := Utf8.Decode(pending, src.input[total..next]);
        if !d.ok then Served("", false)
        else
          var later := Serve(src, next, d.pending);
          Served(d.text + later.text, later.clean)
  }

  /** The next read: what it returns, nothing only at the end. */
  predicate NextRead(src: Source, total: nat, raw: bytes)
    requires src.Admits(total)
  {
    raw == if total == |src.input| then [] else src.input[total..total + src.ReadLength(total)]
  }

  /** The read does not decode, or the input ends inside a sequence. */
  predicate Breaks(raw: bytes, d: Utf8.Decoded) { !d.ok || (raw == [] && d.pending != []) }

  /** What is served, one read at a time. */
  lemma ServeOne(src: Source, total: nat, pending: Utf8.Pending, raw: bytes, d: Utf8.Decoded, next: nat)
    requires src.Admits(total) && NextRead(src, total, raw) && next == total + |raw| <= src.maxBytes
    requires d == Utf8.Decode(pending, raw)
    ensures src.Admits(next) && (raw == [] ==> d.text == "" && Serve(src, next, d.pending).text == "")
    ensures Breaks(raw, d) ==> Serve(src, total, pending) == Served("", false)
    ensures !Breaks(raw, d) ==>
              Serve(src, total, pending)
              == Served(d.text + Serve(src, next, d.pending).text, Serve(src, next, d.pending).clean)
  {
    if total == |src.input| {
      ServeEnd(src, total, pending);
    } else {
      ServeMore(src, total, pending, d, next);
    }
  }

  lemma ServeEnd(src: Source, total: nat, pending: Utf8.Pending)
    requires src.Admits(total) && total == |src.input|
    ensures Serve(src, total, pending) == Served("", pending == [])
    ensures Utf8.Decode(pending, []) == Utf8.Decoded("", pending, true)
  {
  }

  lemma ServeMore(src: Source, total: nat, pending: Utf8.Pending, d: Utf8.Decoded, next: nat)
    requires src.Admits(total) && total < |src.input| && next == total + src.ReadLength(total) <= src.maxBytes
    requires d == Utf8.Decode(pending, src.input[total..next])
    ensures Serve(src, total, pending)
         == if !d.ok then Served("", false)
            else Served(d.text + Serve(src, next, d.pending).text, Serve(src, next, d.pending).clean)
  {
  }

  /** The input is within its limit and is complete UTF-8. */
  predicate Acceptable(input: bytes, maxBytes: int) {
    var d := Utf8.Decode([], input);
    |input| <= maxBytes && d.ok && d.pending == []
  }

  /** The input is within its limit and UTF-8 as far as it goes; its last sequence may be cut short. */
  predicate Sound(input: bytes, maxBytes: int) { |input| <= maxBytes && Utf8.Decode([], input).ok }

  /** The text of the admitted bytes, up to the first that is not UTF-8. */
  function AdmittedText(input: bytes, maxBytes: nat): string {
    Utf8.Decode([], input[..Min(|input|, maxBytes)]).text
  }

  /** One read of the admitted bytes, and those after it. */
  lemma ReadAndRest(src: Source, total: nat, next: nat, pending: Utf8.Pending)
    requires src.Admits(total) && total <= next <= src.Limit()
    ensures var raw, rest := src.input[total..next], src.input[next..src.Limit()];
            var d := Utf8.Decode(pending, raw);
            && src.input[total..src.Limit()] == raw + rest
            && (d.ok ==>
                  var later := Utf8.Decode(d.pending, rest);
                  Utf8.Decode(pending, src.input[total..src.Limit()])
                  == Utf8.Decoded(d.text + later.text, later.pending, later.ok))
            && (!d.ok ==> Utf8.Decode(pending, src.input[total..src.Limit()]) == d)
  {
    var raw, rest := src.input[total..next], src.input[next..src.Limit()];
    assert src.input[total..src.Limit()] == raw + rest;
    Utf8.DecodeInPieces(pending, raw, rest);
  }

  /** What is served against what the admitted bytes decode to: nothing breaks if and only if the bytes are
      within the limit and complete; the text served is all of theirs if they are sound or come singly, and
      an initial part of it otherwise. */
  predicate Agrees(src: Source, s: Served, d: Utf8.Decoded) {
    && (s.clean <==> |src.input| <= src.maxBytes && d.ok && d.pending == [])
    && s.text <= d.text
    && ((|src.input| <= src.maxBytes && d.ok) || src.chunk == 1 ==> s.text == d.text)
  }

  lemma AgreesBehind(src: Source, front: string, s: Served, d: Utf8.Decoded)
    requires Agrees(src, s, d)
    ensures Agrees(src, Served(front + s.text, s.clean), Utf8.Decoded(front + d.text, d.pending, d.ok))
  {
  }

  lemma {:induction false} ServedIsAdmitted(src: Source, total: nat, pending: Utf8.Pending)
    requires src.Admits(total)
    ensures Agrees(src, Serve(src, total, pending), Utf8.Decode(pending, src.input[total..src.Limit()]))
    decreases |src.input| - total
  {
    if total == |src.input| {
      assert src.input[total..src.Limit()] == [];
    } else {
      var next := total + src.ReadLength(total);
      if next <= src.maxBytes {
        ReadAndRest(src, total, next, pending);
        var d := Utf8.Decode(pending, src.input[total..next]);
        if d.ok {
          ServedIsAdmitted(src, next, d.pending);
          AgreesBehind(src, d.text, Serve(src, next, d.pending),
                       Utf8.Decode(d.pending, src.input[next..src.Limit()]));
        } else {
          Utf8.BadByte(pending, src.input[total..next]);
        }
      } else if src.chunk == 1 {
        assert src.input[total..src.Limit()] == [];
      }
    }
  }

  /** From the start: acceptance is a matter of the bytes and the limit alone. */
  lemma ServedFromStart(src: Source)
    requires src.Admits(0)
    ensures var s := Serve(src, 0, []);
            && (s.clean <==> Acceptable(src.input, src.maxBytes))
            && s.text <= AdmittedText(src.input, src.maxBytes)
            && (Sound(src.input, src.maxBytes) || src.chunk == 1 ==> s.text == AdmittedText(src.input, src.maxBytes))
  {
    ServedIsAdmitted(src, 0, []);
    assert src.input[0..src.Limit()] == src.input[..src.Limit()];
    if |src.input| <= src.maxBytes { assert src.input[..src.Limit()] == src.input; }
  }

  /** If unsound bytes are all asked for at once and all given, the first read breaks. */
  lemma ServedAtOnce(src: Source)
    requires src.Admits(0) && src.chunk > src.Limit() && src.cut(0) >= |src.input| && !Sound(src.input, src.maxBytes)
    ensures Serve(src, 0, []) == Served("", false)
  {
    if |src.input| > 0 && src.ReadLength(0) <= src.maxBytes {
      assert src.input[0..src.ReadLength(0)] == src.input;
    }
  }
}
