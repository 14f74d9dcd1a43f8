/** The production loader: an export becomes a set of ROAs only as a whole. */
module VrpLoader {
  import opened Basics
  import opened Wrappers
  import opened Networks
  import opened Bytes
  import opened RouteOrigin
  import opened VrpText
  import opened VrpSource
  import opened VrpStream
  import G = VrpGrammar
  import Utf8

  datatype VrpSet = VrpSet(roas: seq<Roa>, scanned: nat)

  /** Every entry as a ROA, or None if one of them is malformed. */
  function Converted(convert: Json -> Option<Roa>, entries: seq<Json>): Option<seq<Roa>> {
    if entries == [] then Some([])
    else
      var n := |entries| - 1;
      match (Converted(convert, entries[..n]), convert(entries[n]))
      case (Some(roas), Some(roa)) => Some(roas + [roa])
      case _ => None
  }

  function Kept(keep: Network -> bool, roas: seq<Roa>): seq<Roa> {
    if roas == [] then []
    else
      var n := |roas| - 1;
      Kept(keep, roas[..n]) + if keep(roas[n].network) then [roas[n]] else []
  }

  /** What a complete document loads as. */
  function Loaded(keep: Network -> bool, convert: Json -> Option<Roa>, doc: Outcome): Option<VrpSet> {
    if !doc.accepted then None
    else
      match Converted(convert, doc.entries)
      case None => None
      case Some(roas) => Some(VrpSet(Kept(keep, roas), |doc.entries|))
  }

  lemma {:induction false} OneBadEntry(convert: Json -> Option<Roa>, entries: seq<Json>, i: nat)
    requires i < |entries| && convert(entries[i]).None?
    ensures Converted(convert, entries).None?
  {
    var n := |entries| - 1;
    if i < n { OneBadEntry(convert, entries[..n], i); }
  }

  /** All or nothing: a set is returned exactly when the whole input is an acceptable document whose
      every entry converts, and it then holds the kept entries in order.  Entries the filter would
      drop are converted, and can refuse the export, all the same. */
  method FromStream(input: bytes, maxBytes: int, cut: nat -> nat, recursion: int, decode: string -> Option<Json>,
                    keep: Network -> bool, convert: Json -> Option<Roa>)
    returns (r: Option<VrpSet>)
    ensures maxBytes <= 0 ==> r == None
    ensures maxBytes > 0 ==> r == Published(EnvFor(maxBytes, recursion, decode), keep, convert, input, maxBytes)
  {
    var entries, ok := IterRoas(input, maxBytes, STREAM_CHUNK, cut, recursion, decode);
    if !ok { return None; }
    r := ConvertAll(entries, keep, convert);
  }

  /** Converts entry by entry, and keeps what the filter accepts. */
  method ConvertAll(entries: seq<Json>, keep: Network -> bool, convert: Json -> Option<Roa>) returns (r: Option<VrpSet>)
    ensures r == Loaded(keep, convert, Outcome(entries, true))
  {
    var out: seq<Roa> := [];
    var scanned := 0;
    ghost var all: seq<Roa> := [];
    for i := 0 to |entries|
      invariant scanned == i && Converted(convert, entries[..i]) == Some(all) && out == Kept(keep, all)
    {
      scanned := scanned + 1;
      assert entries[..i + 1][..i] == entries[..i];
      var roa := convert(entries[i]);
      if roa.None? {
        OneBadEntry(convert, entries, i);
        return None;
      }
      assert (all + [roa.value])[..|all|] == all;
      all := all + [roa.value];
      if keep(roa.value.network) {
        out := out + [roa.value];
      }
    }
    assert entries[..|entries|] == entries;
    return Some(VrpSet(out, scanned));
  }

  lemma {:induction false} FilteredSum(monitored: seq<Network>, a: seq<Roa>, b: seq<Roa>)
    ensures Filtered(monitored, a + b) == Filtered(monitored, a) + Filtered(monitored, b)
    decreases |a|
  {
    if a == [] {
      assert a + b == b;
    } else {
      FilteredSum(monitored, a[1..], b);
      assert (a + b)[0] == a[0] && (a + b)[1..] == a[1..] + b;
      var first := if Keep(monitored, a[0].network) then [a[0]] else [];
      Assoc(first, Filtered(monitored, a[1..]), Filtered(monitored, b));
    }
  }

  /** `overlapping(monitored)`. */
  function Overlapping(monitored: seq<Network>): Network -> bool {
    (net: Network) => Keep(monitored, net)
  }

  function Unfiltered(): Network -> bool { (net: Network) => true }

  lemma {:induction false} KeptIsFiltered(monitored: seq<Network>, roas: seq<Roa>)
    ensures Kept(Overlapping(monitored), roas) == Filtered(monitored, roas)
  {
    if roas != [] {
      var n := |roas| - 1;
      KeptIsFiltered(monitored, roas[..n]);
      FilteredSum(monitored, roas[..n], [roas[n]]);
      assert roas == roas[..n] + [roas[n]];
      assert [roas[n]][1..] == [];
    }
  }

  /** Loading with the overlap filter gives, for every announcement under a monitored prefix, the
      verdict that loading the whole export would give. */
  lemma FilteredLoadKeepsVerdicts(
    monitored: seq<Network>, convert: Json -> Option<Roa>, doc: Outcome, ann: Network, origin: int)
    requires Monitors(monitored, ann)
    ensures var full, kept := Loaded(Unfiltered(), convert, doc), Loaded(Overlapping(monitored), convert, doc);
            && (full.Some? <==> kept.Some?)
            && (full.Some? ==>
                  && full.value.scanned == kept.value.scanned == |full.value.roas|
                  && Validate(kept.value.roas, Some(ann), origin) == Validate(full.value.roas, Some(ann), origin))
  {
    if doc.accepted && Converted(convert, doc.entries).Some? {
      var roas := Converted(convert, doc.entries).value;
      KeepAll(roas);
      ConvertedLength(convert, doc.entries);
      KeptIsFiltered(monitored, roas);
      FilterPreservesVerdicts(monitored, roas, ann, origin);
    }
  }

  lemma {:induction false} KeepAll(roas: seq<Roa>)
    ensures Kept(Unfiltered(), roas) == roas
  {
    if roas != [] { KeepAll(roas[..|roas| - 1]); }
  }

  lemma {:induction false} ConvertedLength(convert: Json -> Option<Roa>, entries: seq<Json>)
    requires Converted(convert, entries).Some?
    ensures |Converted(convert, entries).value| == |entries|
  {
    if entries != [] { ConvertedLength(convert, entries[..|entries| - 1]); }
  }

  /** What makes an export: within the limit, the UTF-8 encoding of a document of the grammar whose
      every entry is a ROA. */
  ghost predicate IsExport(env: Env, convert: Json -> Option<Roa>, input: bytes, maxBytes: int, d: G.Doc) {
    |input| <= maxBytes && G.Good(env, d)
    && input == Utf8.Encode(G.DocText(env, d))
    && Converted(convert, G.Entries(env, d)).Some?
  }

  /** The set a document stands for. */
  function Contents(env: Env, keep: Network -> bool, convert: Json -> Option<Roa>, d: G.Doc): VrpSet
    requires G.Good(env, d) && Converted(convert, G.Entries(env, d)).Some?
  {
    VrpSet(Kept(keep, Converted(convert, G.Entries(env, d)).value), |G.Entries(env, d)|)
  }

  /** The verdict on an input: a set, or nothing. */
  ghost function Published(
    env: Env, keep: Network -> bool, convert: Json -> Option<Roa>, input: bytes, maxBytes: nat): Option<VrpSet>
  {
    if Acceptable(input, maxBytes) then Loaded(keep, convert, Document(env, AdmittedText(input, maxBytes))) else None
  }

  /** The text of acceptable bytes is what they encode. */
  lemma AcceptableText(input: bytes, maxBytes: nat, text: string)
    ensures Acceptable(input, maxBytes) && AdmittedText(input, maxBytes) == text
       <==> |input| <= maxBytes && input == Utf8.Encode(text)
  {
    if |input| <= maxBytes {
      assert input[..|input|] == input;
      Utf8.CompleteIsEncoding(input);
      Utf8.DecodeEncode(text);
      if Acceptable(input, maxBytes) {
        Utf8.DecodedBytes([], input);
        assert [] + input == input
               && Utf8.Encode(AdmittedText(input, maxBytes)) + [] == Utf8.Encode(AdmittedText(input, maxBytes));
      }
    }
  }

  lemma {:induction false} ConvertedAt(convert: Json -> Option<Roa>, entries: seq<Json>, roas: seq<Roa>)
    requires Converted(convert, entries) == Some(roas)
    ensures |roas| == |entries| && forall i :: 0 <= i < |entries| ==> convert(entries[i]) == Some(roas[i])
  {
    if entries != [] {
      var n := |entries| - 1;
      ConvertedAt(convert, entries[..n], Converted(convert, entries[..n]).value);
    }
  }

  /** Where the filter keeps an element. */
  function KeptAt(keep: Network -> bool, roas: seq<Roa>): seq<nat> {
    if roas == [] then []
    else
      var n := |roas| - 1;
      KeptAt(keep, roas[..n]) + if keep(roas[n].network) then [n] else []
  }

  lemma {:induction false} KeptInOrder(keep: Network -> bool, roas: seq<Roa>)
    ensures var at, kept := KeptAt(keep, roas), Kept(keep, roas);
            && |at| == |kept| && (forall k :: 0 <= k < |at| ==> at[k] < |roas| && kept[k] == roas[at[k]])
            && (forall k, l :: 0 <= k < l < |at| ==> at[k] < at[l])
            && (forall i: nat :: i in at <==> i < |roas| && keep(roas[i].network))
  {
    if roas != [] { KeptInOrder(keep, roas[..|roas| - 1]); }
  }

  /** The set of an export: its entries, converted one by one; those the filter keeps, in order; and how
      many there were. */
  lemma ContentsAreTheKeptEntries(env: Env, keep: Network -> bool, convert: Json -> Option<Roa>, d: G.Doc)
    returns (at: seq<nat>)
    requires G.Good(env, d) && Converted(convert, G.Entries(env, d)).Some?
    ensures var whole, entries := Contents(env, keep, convert, d), G.Entries(env, d);
            && whole.scanned == |entries| && |at| == |whole.roas|
            && (forall i :: 0 <= i < |entries| ==> convert(entries[i]).Some?)
            && (forall k :: 0 <= k < |at| ==> at[k] < |entries| && convert(entries[at[k]]) == Some(whole.roas[k]))
            && (forall k, l :: 0 <= k < l < |at| ==> at[k] < at[l])
            && (forall i: nat :: i in at <==> i < |entries| && keep(convert(entries[i]).value.network))
  {
    var entries := G.Entries(env, d);
    var roas := Converted(convert, entries).value;
    ConvertedAt(convert, entries, roas);
    KeptInOrder(keep, roas);
    at := KeptAt(keep, roas);
  }

  /** All entries convert exactly if each does. */
  lemma {:induction false} ConvertedIffEach(convert: Json -> Option<Roa>, entries: seq<Json>)
    ensures Converted(convert, entries).Some? <==> forall i :: 0 <= i < |entries| ==> convert(entries[i]).Some?
  {
    if entries != [] { ConvertedIffEach(convert, entries[..|entries| - 1]); }
  }

  lemma ExportIsPublished(
    env: Env, keep: Network -> bool, convert: Json -> Option<Roa>, input: bytes, maxBytes: nat, d: G.Doc)
    requires env.cap >= 256 && IsExport(env, convert, input, maxBytes, d)
    ensures Published(env, keep, convert, input, maxBytes) == Some(Contents(env, keep, convert, d))
  {
    AcceptableText(input, maxBytes, G.DocText(env, d));
    G.GrammarIsAccepted(env, d);
  }

  lemma PublishedIsExport(
    env: Env, keep: Network -> bool, convert: Json -> Option<Roa>, input: bytes, maxBytes: nat)
    returns (d: G.Doc)
    requires env.cap >= 256 && env.decode("") == None && Published(env, keep, convert, input, maxBytes).Some?
    ensures IsExport(env, convert, input, maxBytes, d)
  {
    var text := AdmittedText(input, maxBytes);
    AcceptableText(input, maxBytes, text);
    d := G.AcceptedIsGrammar(env, text);
    G.GrammarIsAccepted(env, d);
  }

  /** A set is published if and only if the bytes are an export, and then it holds that document's
      kept entries in order; no partial or malformed input ever becomes a set. */
  lemma PublishedIffExport(env: Env, keep: Network -> bool, convert: Json -> Option<Roa>, input: bytes, maxBytes: nat)
    requires env.cap >= 256 && env.decode("") == None
    ensures Published(env, keep, convert, input, maxBytes).Some?
       <==> exists d :: IsExport(env, convert, input, maxBytes, d)
    ensures forall d :: IsExport(env, convert, input, maxBytes, d) ==>
              Published(env, keep, convert, input, maxBytes) == Some(Contents(env, keep, convert, d))
  {
    if Published(env, keep, convert, input, maxBytes).Some? {
      var d := PublishedIsExport(env, keep, convert, input, maxBytes);
    }
    forall d | IsExport(env, convert, input, maxBytes, d)
      ensures Published(env, keep, convert, input, maxBytes) == Some(Contents(env, keep, convert, d))
    {
      ExportIsPublished(env, keep, convert, input, maxBytes, d);
    }
  }

  // ---- The memory for keys ----

  /** The text of an object with these members. */
  function ObjectText(before: string, ms: seq<G.Member>, after: string): string
    requires ms != [] && forall i :: 0 <= i < |ms| ==> G.NonEmpty(ms[i].body)
  {
    before + ("{" + G.MembersText(ms, after))
  }

  /** An object-shaped export, with n distinct keys of L characters in all and every entry a ROA, is published
      if and only if 128 n + 4 L is at most 2^30, or at most the limit; and then with its kept entries. */
  lemma ObjectIffKeysFit(
    maxBytes: nat, recursion: int, decode: string -> Option<Json>, keep: Network -> bool, convert: Json -> Option<Roa>,
    input: bytes, before: string, ms: seq<G.Member>, after: string, roas: seq<Roa>)
    requires maxBytes > 0 && G.Blanks(before) && G.Blanks(after)
    requires G.GoodObject(EnvFor(maxBytes, recursion, decode), ms)
    requires |input| <= maxBytes && input == Utf8.Encode(ObjectText(before, ms, after))
    requires Converted(convert, G.RoaValues(EnvFor(maxBytes, recursion, decode), ms)) == Some(roas)
    ensures var env := EnvFor(maxBytes, recursion, decode);
            var memory := 128 * |ms| + 4 * G.KeyChars(env, ms);
            && (Published(env, keep, convert, input, maxBytes).Some? <==> memory <= 0x4000_0000 || memory <= maxBytes)
            && (memory <= 0x4000_0000 || memory <= maxBytes ==>
                  Published(env, keep, convert, input, maxBytes)
                  == Some(VrpSet(Kept(keep, roas), |G.RoaValues(env, ms)|)))
  {
    var env := EnvFor(maxBytes, recursion, decode);
    var d := G.ObjectDoc(before, ms, after);
    if G.KeyMemory(env, ms) <= env.cap {
      assert G.DocText(env, d) == ObjectText(before, ms, after);
      ExportIsPublished(env, keep, convert, input, maxBytes, d);
    } else {
      AcceptableText(input, maxBytes, ObjectText(before, ms, after));
      G.ObjectOverBudget(env, before, ms, after);
    }
  }

  const EMPTY_EXPORT: string := "{\"roas\":[]}"

  /** The smallest object-shaped export is published, as the empty set. */
  lemma EmptyExportIsPublished(
    maxBytes: nat, recursion: int, decode: string -> Option<Json>, keep: Network -> bool, convert: Json -> Option<Roa>)
    requires maxBytes >= |Utf8.Encode(EMPTY_EXPORT)| && maxBytes > 0 && decode("\"roas\"") == Some(JString("roas"))
    ensures Published(EnvFor(maxBytes, recursion, decode), keep, convert, Utf8.Encode(EMPTY_EXPORT), maxBytes)
         == Some(VrpSet([], 0))
  {
    var env := EnvFor(maxBytes, recursion, decode);
    var m := OnlyRoas(env);
    EmptyExportText(m);
    ObjectIffKeysFit(maxBytes, recursion, decode, keep, convert, Utf8.Encode(EMPTY_EXPORT), "", [m], "", []);
  }

  lemma OnlyRoas(env: Env) returns (m: G.Member)
    requires env.cap >= 0x4000_0000 && env.decode("\"roas\"") == Some(JString("roas"))
    ensures m == G.Member("", "\"roas\"", "", G.RoaArray("", G.EmptyArray(""), ""))
    ensures G.GoodObject(env, [m]) && G.KeyChars(env, [m]) == 4 && G.RoaValues(env, [m]) == []
  {
    m := G.Member("", "\"roas\"", "", G.RoaArray("", G.EmptyArray(""), ""));
    QuotedName(env);
    assert G.GoodKey(env, m) && G.KeyOf(env, m) == "roas";
    assert [m][0].body.RoaArray? && [m][1..] == [];
  }

  lemma QuotedName(env: Env)
    requires env.cap >= 0x4000_0000 && env.decode("\"roas\"") == Some(JString("roas"))
    ensures G.Unit(env, "\"roas\"", JString("roas"))
  {
    assert "roas"[1..] == "oas" && "oas"[1..] == "as" && "as"[1..] == "s" && "s"[1..] == "";
    assert G.N.Body("s") && G.N.Body("as") && G.N.Body("oas") && G.N.Body("roas");
    assert G.N.Spells(env, "\"roas\"", G.N.Str("roas"));
  }

  lemma EmptyExportText(m: G.Member)
    requires m == G.Member("", "\"roas\"", "", G.RoaArray("", G.EmptyArray(""), ""))
    ensures ObjectText("", [m], "") == EMPTY_EXPORT
  {
    assert G.BodyText(m.body, "}" + "") == "[]}";
    assert G.MembersText([m], "") == "\"roas\":[]}";
  }
}
