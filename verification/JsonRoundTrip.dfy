/** What becomes of a tree that is encoded and decoded again: every key is renamed, and nothing else changes. */
module JsonRoundTrip {
  import opened Bytes
  import opened JsonScanner
  import opened JsonLexemes
  import opened JsonGrammar
  import opened JsonMeaning
  import opened JsonStrings
  import opened JsonEncoder
  import opened Utf8
  import JsonParse
  import JsonNumber

  // ---- The output is a text ----

  lemma QuoteIsScalar(s: bytes, html: bool)
    ensures IsString(Quote(s, html)) && IsScalar(Quote(s, html))
  {
    QuoteIsString(s, html);
    hide IsNumber;
  }

  lemma {:induction false} TreeWf(j: Json, html: bool)
    requires Encodable(j)
    ensures WfVal(Tree(j, html))
  {
    match j
    case Null =>
    case Bool(_) =>
    case Number(_) =>
    case Str(s) =>
      QuoteIsScalar(s, html);
      hide IsScalar, Quote;
    case List(items) =>
      TreeOfList(j, html);
      forall i | 0 <= i < |items| ensures WfElem(TreeElems(j, html)[i]) {
        TreeWf(items[i], html);
      }
    case Dict(entries) =>
      var sv := Sorted(entries.Keys);
      KeysListed(j);
      MembersAre(j, sv, html);
      var ms := Members(j, sv, html);
      forall i | 0 <= i < |ms| ensures WfMember(ms[i]) {
        TreeWf(entries[sv[i]], html);
        QuoteIsScalar(sv[i] + SUFFIX, html);
      }
      TreeOfDict(j, html);
      hide Members, WfMember;
  }

  lemma TreeOfDict(j: Json, html: bool)
    requires j.Dict?
    ensures Tree(j, html) == Obj([], Members(j, Sorted(j.entries.Keys), html))
  {
  }

  /** Marshal's output is accepted by checkValid. */
  lemma MarshalValid(j: Json, html: bool)
    requires Encodable(j)
    ensures IsText(Text(Tree(j, html)), [], Tree(j, html), []) && Valid(Text(Tree(j, html)))
  {
    TreeWf(j, html);
    hide WfVal, Text, Tree;
    assert Text(Tree(j, html)) == [] + Text(Tree(j, html)) + [];
    JsonParse.ValidIffText(Text(Tree(j, html)));
  }

  // ---- The renamed tree ----

  /** The key that is read back for the key `k`. */
  function NewKey(k: bytes): bytes {
    Coerce(k) + SUFFIX
  }

  function NewKeys(m: map<bytes, Json>): set<bytes> {
    set k | k in m :: NewKey(k)
  }

  /** Of the keys that are read back as `x`, the last one in byte order. */
  ghost predicate IsOldKey(m: map<bytes, Json>, x: bytes, k: bytes) {
    k in m && NewKey(k) == x && forall k' :: k' in m && NewKey(k') == x && k' != k ==> Less(k', k)
  }

  lemma {:induction false} OldKeyExists(m: map<bytes, Json>, x: bytes)
    requires x in NewKeys(m)
    ensures exists k :: IsOldKey(m, x, k)
    decreases |m|
  {
    hide NewKey, Less;
    var k :| k in m && NewKey(k) == x;
    var m' := m - {k};
    assert |m'| == |m| - 1 by { assert m'.Keys == m.Keys - {k}; }
    if x in NewKeys(m') {
      OldKeyExists(m', x);
      var k' :| IsOldKey(m', x, k');
      LessTotal(k, k');
      if Less(k, k') {
        assert IsOldKey(m, x, k');
      } else {
        forall n | n in m && NewKey(n) == x && n != k ensures Less(n, k) {
          if n != k' { assert n in m'; LessTransitive(n, k', k); }
        }
        assert IsOldKey(m, x, k);
      }
    } else {
      forall n | n in m' ensures NewKey(n) != x {
        assert NewKey(n) in NewKeys(m');
      }
      assert forall n :: n in m && n != k ==> n in m';
      assert IsOldKey(m, x, k);
    }
  }

  /** The key whose value is read back under `x`. */
  ghost function OldKey(m: map<bytes, Json>, x: bytes): (k: bytes)
    requires x in NewKeys(m)
    ensures IsOldKey(m, x, k)
  {
    OldKeyExists(m, x);
    var k :| IsOldKey(m, x, k);
    k
  }

  /** The tree with every key renamed; ill-formed bytes in strings are replaced, and Number's zero value is 0.
      Of keys that are renamed alike the last one in byte order, which is written last, keeps its value. */
  ghost function Rename(j: Json): Json {
    match j
    case Null => Null
    case Bool(b) => Bool(b)
    case Number(l) => Number(NumberText(l))
    case Str(s) => Str(Coerce(s))
    case List(items) => List(seq(|items|, i requires 0 <= i < |items| => Rename(items[i])))
    case Dict(m) => Dict(map x | x in NewKeys(m) :: Rename(m[OldKey(m, x)]))
  }

  lemma KeyIsNew(k: bytes, html: bool)
    ensures StringOf(Quote(k + SUFFIX, html)) == NewKey(k)
  {
    UnquoteQuote(k + SUFFIX, html);
    CoerceConcat(k, SUFFIX);
    SuffixKept();
    hide Quote, Coerce, Unquote;
  }

  lemma SuffixKept()
    ensures Coerce(SUFFIX) == SUFFIX
  {
    AsciiKept(SUFFIX);
  }

  lemma {:induction false} AsciiKept(s: bytes)
    requires forall i :: 0 <= i < |s| ==> s[i] < 0x80
    ensures Coerce(s) == s
  {
    if s != [] {
      AsciiKept(s[1..]);
      assert CharSize(s) == 1 && s == s[..1] + s[1..];
    }
  }

  /** The keys that are read back, merged or not. */
  lemma KeysReadBack(j: Json, html: bool)
    requires j.Dict?
    ensures Denote(Tree(j, html)).Dict? && Denote(Tree(j, html)).entries.Keys == NewKeys(j.entries)
  {
    var sv := Sorted(j.entries.Keys);
    var ms := Members(j, sv, html);
    KeysListed(j);
    MembersAre(j, sv, html);
    TreeOfDict(j, html);
    hide Tree, Quote, Members, StringOf;
    forall x ensures x in Entries(ms) <==> x in NewKeys(j.entries) {
      if x in Entries(ms) {
        var i := OnlyKeys(ms, x);
        KeyIsNew(sv[i], html);
        assert sv[i] in j.entries;
      }
      if x in NewKeys(j.entries) {
        var k := OldKey(j.entries, x);
        assert k in sv;
        var i :| 0 <= i < |sv| && sv[i] == k;
        KeyIsNew(k, html);
        LastOne(ms, x, i);
      }
    }
  }

  lemma {:induction false} LastOne(ms: seq<Member>, x: bytes, i: nat)
    requires i < |ms| && StringOf(ms[i].key) == x
    ensures x in Entries(ms)
  {
    hide StringOf;
    var n := |ms| - 1;
    if i < n { LastOne(ms[..n], x, i); }
  }

  lemma NumberDenotes(text: bytes)
    requires IsNumber(text)
    ensures Denote(Lit(text)) == Number(text)
  {
    NumberIff(text);
    JsonNumber.NumberFirst(text);
    LexFirst(text);
    hide IsNumber, LexState;
  }

  lemma StringDenotes(s: bytes, html: bool)
    ensures Denote(Lit(Quote(s, html))) == Str(Coerce(s))
  {
    UnquoteQuote(s, html);
    QuoteFirst(s, html);
    hide Quote, Unquote, Coerce;
  }

  lemma QuoteFirst(s: bytes, html: bool)
    ensures Quote(s, html) != [] && Quote(s, html)[0] == QUOTE
  {
  }

  /** Encoding and decoding again renames the keys, whether or not some of them merge, and changes nothing else. */
  lemma {:induction false} RoundTrip(j: Json, html: bool)
    requires Encodable(j)
    ensures Denote(Tree(j, html)) == Rename(j)
  {
    match j
    case Null =>
    case Bool(_) =>
    case Number(l) => NumberDenotes(NumberText(l));
    case Str(s) => StringDenotes(s, html);
    case List(items) =>
      TreeOfList(j, html);
      forall i | 0 <= i < |items| ensures Denote(Tree(items[i], html)) == Rename(items[i]) {
        RoundTrip(items[i], html);
      }
      assert Denote(Tree(j, html)).items == Rename(j).items;
    case Dict(m) =>
      KeysReadBack(j, html);
      forall x | x in NewKeys(m) ensures Denote(Tree(j, html)).entries[x] == Rename(m[OldKey(m, x)]) {
        RoundTrip(m[OldKey(m, x)], html);
        EntryReadBack(j, html, x, OldKey(m, x));
      }
      hide Tree, Denote;
      assert Denote(Tree(j, html)).entries == Rename(j).entries;
  }

  /** The value of the greatest old key is the one that is read back. */
  lemma EntryReadBack(j: Json, html: bool, x: bytes, k: bytes)
    requires j.Dict? && IsOldKey(j.entries, x, k)
    ensures Denote(Tree(j, html)).Dict? && x in Denote(Tree(j, html)).entries
    ensures Denote(Tree(j, html)).entries[x] == Denote(Tree(j.entries[k], html))
  {
    var sv := Sorted(j.entries.Keys);
    var ms := Members(j, sv, html);
    KeysListed(j);
    MembersAre(j, sv, html);
    TreeOfDict(j, html);
    assert Lists(sv, j.entries.Keys);
    assert Denote(Obj([], ms)) == Dict(Entries(ms));
    hide Tree, Quote, Members, StringOf, Denote, NewKey;
    assert k in sv;
    var i :| 0 <= i < |sv| && sv[i] == k;
    forall n | i <= n < |ms| ensures StringOf(ms[n].key) == NewKey(sv[n]) {
      KeyIsNew(sv[n], html);
    }
    forall n | i < n < |ms| ensures StringOf(ms[n].key) != x {
      assert Less(sv[i], sv[n]);
      LessTotal(sv[i], sv[n]);
      assert sv[n] in j.entries;
    }
    assert IsLast(ms, x, i);
    LastWins(ms, x, i);
  }

  // ---- When keys merge ----

  /** No two keys are the same string once each of their ill-formed bytes is replaced by U+FFFD. */
  ghost predicate DistinctCoerced(m: map<bytes, Json>) {
    forall k, k' :: k in m && k' in m && Coerce(k) == Coerce(k') ==> k == k'
  }

  lemma NewKeyIff(k: bytes, k': bytes)
    ensures NewKey(k) == NewKey(k') <==> Coerce(k) == Coerce(k')
  {
    hide Coerce;
    var a, b := Coerce(k), Coerce(k');
    assert a == (a + SUFFIX)[..|a + SUFFIX| - |SUFFIX|] && b == (b + SUFFIX)[..|b + SUFFIX| - |SUFFIX|];
  }

  lemma {:induction false} NewKeysBound(m: map<bytes, Json>)
    ensures |NewKeys(m)| <= |m|
    ensures DistinctCoerced(m) ==> |NewKeys(m)| == |m|
    decreases |m|
  {
    hide NewKey;
    if m == map[] {
      assert NewKeys(m) == {};
    } else {
      var k :| k in m;
      var m' := m - {k};
      NewKeysBound(m');
      assert |m'| == |m| - 1 by { assert m'.Keys == m.Keys - {k}; }
      assert NewKeys(m) == NewKeys(m') + {NewKey(k)};
      if DistinctCoerced(m) {
        forall n | n in m' ensures NewKey(n) != NewKey(k) { NewKeyIff(n, k); }
        assert NewKey(k) !in NewKeys(m');
      }
    }
  }

  lemma NewKeysLost(m: map<bytes, Json>, k: bytes, k': bytes)
    requires k in m && k' in m && k != k' && Coerce(k) == Coerce(k')
    ensures |NewKeys(m)| < |m|
  {
    var m' := m - {k};
    NewKeysBound(m');
    hide Coerce;
    assert NewKey(k) == NewKey(k');
    hide NewKey;
    assert |m'| == |m| - 1 by { assert m'.Keys == m.Keys - {k}; }
    assert k' in m';
    assert NewKeys(m) == NewKeys(m');
  }

  /** An object that is encoded and decoded again has as many entries as before exactly when no two of its keys
      become equal by replacing their ill-formed bytes. */
  lemma NoneMergedIff(j: Json, html: bool)
    requires j.Dict?
    ensures var d := Denote(Tree(j, html));
            d.Dict? && |d.entries| <= |j.entries| && (|d.entries| == |j.entries| <==> DistinctCoerced(j.entries))
  {
    KeysReadBack(j, html);
    NewKeysBound(j.entries);
    hide Denote, Tree, NewKeys;
    assert |Denote(Tree(j, html)).entries| == |Denote(Tree(j, html)).entries.Keys|;
    if !DistinctCoerced(j.entries) {
      var k, k' :| k in j.entries && k' in j.entries && Coerce(k) == Coerce(k') && k != k';
      NewKeysLost(j.entries, k, k');
    }
  }

  /** No object of the tree has two keys that become equal. */
  ghost predicate Unmerged(j: Json) {
    match j
    case List(items) => forall i :: 0 <= i < |items| ==> Unmerged(items[i])
    case Dict(m) => DistinctCoerced(m) && forall k :: k in m ==> Unmerged(m[k])
    case _ => true
  }

  /** `d` has an element for each element of `j`, and an entry of its own for each entry of `j`, all the way down. */
  ghost predicate NothingLost(j: Json, d: Json) {
    match j
    case List(items) => d.List? && |d.items| == |items| && forall i :: 0 <= i < |items| ==> NothingLost(items[i], d.items[i])
    case Dict(m) =>
      && d.Dict? && |d.entries| == |m|
      && forall k :: k in m ==> NewKey(k) in d.entries && NothingLost(m[k], d.entries[NewKey(k)])
    case _ => d == Rename(j)
  }

  /** In the whole tree nothing is lost exactly when no object has two keys that become equal. */
  lemma {:induction false} NothingLostIff(j: Json, html: bool)
    requires Encodable(j)
    ensures NothingLost(j, Denote(Tree(j, html))) <==> Unmerged(j)
  {
    match j
    case Null => RoundTrip(j, html);
    case Bool(_) => RoundTrip(j, html);
    case Number(_) => RoundTrip(j, html);
    case Str(_) => RoundTrip(j, html);
    case List(items) =>
      TreeOfList(j, html);
      forall i | 0 <= i < |items|
        ensures Denote(Tree(j, html)).items[i] == Denote(Tree(items[i], html))
        ensures NothingLost(items[i], Denote(Tree(items[i], html))) <==> Unmerged(items[i])
      {
        NothingLostIff(items[i], html);
      }
      hide Tree;
    case Dict(m) =>
      NoneMergedIff(j, html);
      if DistinctCoerced(m) {
        forall k | k in m
          ensures NothingLost(m[k], Denote(Tree(m[k], html))) <==> Unmerged(m[k])
          ensures NewKey(k) in Denote(Tree(j, html)).entries
          ensures Denote(Tree(j, html)).entries[NewKey(k)] == Denote(Tree(m[k], html))
        {
          NothingLostIff(m[k], html);
          OwnKey(m, k);
          EntryReadBack(j, html, NewKey(k), k);
        }
      }
      hide Tree, Denote;
  }

  lemma OwnKey(m: map<bytes, Json>, k: bytes)
    requires DistinctCoerced(m) && k in m
    ensures IsOldKey(m, NewKey(k), k)
  {
    hide NewKey;
    forall k' | k' in m && NewKey(k') == NewKey(k) ensures k' == k { NewKeyIff(k', k); }
  }

  /** U+FFFD in UTF-8 */
  const REPLACED: bytes := [0xEF, 0xBF, 0xBD]

  lemma Coerced()
    ensures Coerce([0xFF]) == REPLACED && Coerce([0xFE]) == REPLACED && Coerce(REPLACED) == REPLACED
  {
    var a: bytes, b: bytes := [0xFF], [0xFE];
    assert a[1..] == [] && b[1..] == [];
    assert CharSize(REPLACED) == 3 && REPLACED[3..] == [] && REPLACED[..3] == REPLACED;
  }

  /** Such objects: {FE: true, FF: null}, and {U+FFFD: true, FF: null}, whose first key is well-formed. Of either
      only the value under FF is read back. */
  lemma LostEntry(k: bytes, html: bool)
    requires k == [0xFE] || k == REPLACED
    ensures Denote(Tree(Dict(map[k := Bool(true), [0xFF] := Null]), html)) == Dict(map[REPLACED + SUFFIX := Null])
  {
    var last: bytes := [0xFF];
    var m: map<bytes, Json> := map[k := Bool(true), last := Null];
    var j, x := Dict(m), REPLACED + SUFFIX;
    Coerced();
    assert Less(k, last) by { assert k != last; }
    hide Coerce, Less;
    assert NewKey(k) == x && NewKey(last) == x;
    assert NewKeys(m) == {x} by { assert last in m; }
    assert IsOldKey(m, x, last);
    KeysReadBack(j, html);
    EntryReadBack(j, html, x, last);
    NullReadBack(html);
    hide Denote, Tree;
    assert Denote(Tree(j, html)).entries == map[x := Null];
  }

  lemma NullReadBack(html: bool)
    ensures Denote(Tree(Null, html)) == Null
  {
  }

  /** Keys of well-formed UTF-8 are never merged, and are renamed by the suffix alone. */
  lemma WellFormedKeys(m: map<bytes, Json>)
    requires forall k :: k in m ==> WellFormed(k)
    ensures DistinctCoerced(m) && forall k :: k in m ==> NewKey(k) == k + SUFFIX
  {
    forall k | k in m ensures Coerce(k) == k {
      CoerceIdentity(k);
    }
    hide Coerce, WellFormed;
  }
}
