/**
 What the beginning of an export says about the whole.  If the source breaks, the text ends where the
 reads did, and a bare word there may not be over; whatever else was read stands however the text would
 have gone on.
 */
module VrpPrefix {
  import opened Basics
  import opened Wrappers
  import opened VrpText

  /** The same limits and decoder, for a text that may go on. */
  ghost predicate Opens(open: Env, env: Env) { open == env.(ended := false) }

  lemma {:induction false} SkipGoesOn(rest: string, more: string)
    requires SkipBlanks(rest) != ""
    ensures SkipBlanks(rest + more) == SkipBlanks(rest) + more
    decreases |rest|
  {
    assert (rest + more)[0] == rest[0] && (rest + more)[1..] == rest[1..] + more;
    if Blank(rest[0]) { SkipGoesOn(rest[1..], more); }
  }

  lemma TailGoesOn(r: string, more: string, n: nat)
    requires n <= |r|
    ensures (r + more)[..n] == r[..n] && (r + more)[n..] == r[n..] + more
  {
  }

  lemma ValueGoesOn(open: Env, env: Env, rest: string, more: string)
    requires Opens(open, env) && Value(open, rest).Some?
    ensures var t := Value(open, rest).value; Value(env, rest + more) == Some(Taken(t.value, t.rest + more))
  {
    var r := SkipBlanks(rest);
    SkipGoesOn(rest, more);
    var off, n := StartOffset(r[0]), Extent(open, r).value;
    assert (r + more)[0] == r[0];
    TailGoesOn(r, more, off);
    ScanGoesOn(open, env, KindOf(r[0]), StartScan(r[0]), r[off..], more);
    TailGoesOn(r, more, n);
  }

  /** A closing bracket, or a comma with something behind it, is there for good. */
  lemma SeparatorGoesOn(close: char, rest: string, more: string)
    requires close != ','
    requires AfterItem(close, rest).Closed? || (AfterItem(close, rest).Another? && AfterItem(close, rest).rest != "")
    ensures match AfterItem(close, rest)
            case Closed(r) => AfterItem(close, rest + more) == Closed(r + more)
            case Another(r) => AfterItem(close, rest + more) == Another(r + more)
            case Unexpected => true
  {
    var r := SkipBlanks(rest);
    SkipGoesOn(rest, more);
    TailGoesOn(r, more, 1);
    assert (r + more)[0] == r[0];
    if AfterItem(close, rest).Another? {
      SkipGoesOn(r[1..], more);
      assert (SkipBlanks(r[1..]) + more)[0] == SkipBlanks(r[1..])[0];
    }
  }

  /** What was parsed of a beginning: the entries stand, and if it was closed, all of it does. */
  ghost predicate Stands(part: Parsed, whole: Parsed, more: string) {
    && part.entries <= whole.entries
    && (part.rest.Some? ==> whole == Parsed(part.entries, Some(part.rest.value + more)))
  }

  lemma {:induction false} ItemsGoOn(open: Env, env: Env, rest: string, more: string, acc: seq<Json>)
    requires Opens(open, env)
    ensures Stands(Items(open, rest, acc), Items(env, rest + more, acc), more)
    decreases |rest|
  {
    if Value(open, rest).Some? {
      ValueGoesOn(open, env, rest, more);
      var Taken(v, after) := Value(open, rest).value;
      var sep := AfterItem(']', after);
      if v.JObject? {
        ItemThenRest(open, rest, acc, v, after);
        ItemThenRest(env, rest + more, acc, v, after + more);
        if sep.Closed? || (sep.Another? && sep.rest != "") { SeparatorGoesOn(']', after, more); }
        if sep.Another? && sep.rest != "" { ItemsGoOn(open, env, sep.rest, more, acc + [v]); }
      }
    }
  }

  lemma RoasGoOn(open: Env, env: Env, rest: string, more: string, acc: seq<Json>)
    requires Opens(open, env)
    ensures Stands(Roas(open, rest, acc), Roas(env, rest + more, acc), more)
  {
    var r := SkipBlanks(rest);
    if At(r, '[') {
      SkipGoesOn(rest, more);
      TailGoesOn(r, more, 1);
      var first := SkipBlanks(r[1..]);
      if first != "" {
        SkipGoesOn(r[1..], more);
        TailGoesOn(first, more, 1);
        assert (first + more)[0] == first[0];
        ItemsGoOn(open, env, first, more, acc);
      }
    }
  }

  lemma KeyGoesOn(open: Env, env: Env, rest: string, more: string, h: Header)
    requires Opens(open, env) && Key(open, rest, h).Some?
    ensures var k := Key(open, rest, h).value; Key(env, rest + more, h) == Some((k.0, k.1, k.2 + more))
  {
    ValueGoesOn(open, env, rest, more);
    var after := Value(open, rest).value.rest;
    var key := Value(open, rest).value.value.s;
    KeyThenColon(open, rest, h, key, after);
    KeyThenColon(env, rest + more, h, key, after + more);
    SkipGoesOn(after, more);
    TailGoesOn(SkipBlanks(after), more, 1);
  }

  lemma BodyGoesOn(open: Env, env: Env, key: string, rest: string, more: string, acc: seq<Json>)
    requires Opens(open, env)
    ensures Stands(Body(open, key, rest, acc), Body(env, key, rest + more, acc), more)
  {
    if key == "roas" {
      RoasGoOn(open, env, rest, more, acc);
    } else if Value(open, rest).Some? {
      ValueGoesOn(open, env, rest, more);
    }
  }

  lemma NoMembers(env: Env, h: Header, acc: seq<Json>)
    ensures Members(env, "", h, acc) == (Parsed(acc, None), false)
  {
  }

  lemma {:induction false} MembersGoOn(open: Env, env: Env, rest: string, more: string, h: Header, acc: seq<Json>)
    requires Opens(open, env)
    ensures Members(open, rest, h, acc).0.entries <= Members(env, rest + more, h, acc).0.entries
    decreases |rest|
  {
    if Key(open, rest, h).Some? {
      KeyGoesOn(open, env, rest, more, h);
      var (key, h', after) := Key(open, rest, h).value;
      BodyGoesOn(open, env, key, after, more, acc);
      var body, whole := Body(open, key, after, acc), Body(env, key, after + more, acc);
      MemberThenRest(open, rest, h, acc, key, h', after, body);
      MemberThenRest(env, rest + more, h, acc, key, h', after + more, whole);
      if body.rest.Some? {
        var sep := AfterItem('}', body.rest.value);
        if sep.Closed? || (sep.Another? && sep.rest != "") { SeparatorGoesOn('}', body.rest.value, more); }
        if sep.Another? && sep.rest != "" { MembersGoOn(open, env, sep.rest, more, h', body.entries); }
        if sep.Another? && sep.rest == "" { NoMembers(open, h', body.entries); }
      }
    }
  }

  /** The entries of a beginning are those of the whole, as far as they go. */
  lemma DocumentGoesOn(open: Env, env: Env, text: string, more: string)
    requires Opens(open, env)
    ensures Document(open, text).entries <= Document(env, text + more).entries
  {
    var r := SkipBlanks(text);
    if r != "" {
      SkipGoesOn(text, more);
      assert (r + more)[0] == r[0];
      if r[0] == '[' {
        RoasGoOn(open, env, r, more, []);
      } else if r[0] == '{' {
        ObjectGoesOn(open, env, r, more);
      }
    }
  }

  lemma ObjectGoesOn(open: Env, env: Env, r: string, more: string)
    requires Opens(open, env) && At(r, '{')
    ensures Enclosed(open, r).0.entries <= Enclosed(env, r + more).0.entries
  {
    assert (r + more)[0] == r[0] && SkipBlanks(r + more) == r + more && SkipBlanks(r) == r;
    TailGoesOn(r, more, 1);
    var first := SkipBlanks(r[1..]);
    if first != "" {
      SkipGoesOn(r[1..], more);
      assert (first + more)[0] == first[0];
      MembersGoOn(open, env, first, more, Header({}, 0, false), []);
    }
  }
}
