/** The encoder for trees of null, booleans, numbers, strings, lists and maps with string keys. */
module JsonEncoder {
  import opened Options
  import opened Bytes
  import opened JsonScanner
  import opened JsonLexemes
  import opened JsonGrammar
  import opened JsonMeaning
  import opened JsonStrings
  import opened JsonQuoting
  import opened Utf8
  import JsonParse
  import JsonNumber

  // ---- Keys in order ----

  /** The order of strings: byte by byte. */
  predicate Less(a: bytes, b: bytes) {
    if b == [] then false
    else if a == [] then true
    else if a[0] == b[0] then Less(a[1..], b[1..])
    else a[0] < b[0]
  }

  lemma {:induction false} LessTotal(a: bytes, b: bytes)
    ensures Less(a, b) || a == b || Less(b, a)
    ensures !(Less(a, b) && Less(b, a)) && !Less(a, a)
  {
    if a != [] && b != [] && a[0] == b[0] {
      LessTotal(a[1..], b[1..]);
      assert a == [a[0]] + a[1..] && b == [b[0]] + b[1..];
    }
    if a != [] { LessTotal(a[1..], a[1..]); }
  }

  lemma {:induction false} LessTransitive(a: bytes, b: bytes, c: bytes)
    requires Less(a, b) && Less(b, c)
    ensures Less(a, c)
  {
    if a != [] && a[0] == b[0] == c[0] {
      LessTransitive(a[1..], b[1..], c[1..]);
    }
  }

  ghost predicate Ascending(s: seq<bytes>) {
    forall i, j :: 0 <= i < j < |s| ==> Less(s[i], s[j])
  }

  /** `s` lists the keys once each, in order. */
  ghost predicate Lists(s: seq<bytes>, keys: set<bytes>) {
    Ascending(s) && forall k :: k in keys <==> k in s
  }

  /** There is one such list. */
  lemma {:induction false} ListsOne(s: seq<bytes>, t: seq<bytes>, keys: set<bytes>)
    requires Lists(s, keys) && Lists(t, keys)
    ensures s == t
    decreases |s|
  {
    FirstListed(s, keys);
    FirstListed(t, keys);
    if s != [] {
      var j :| 0 <= j < |t| && t[j] == s[0];
      var i :| 0 <= i < |s| && s[i] == t[0];
      LessTotal(s[0], t[0]);
      assert s[0] == t[0];
      ListsRest(s, keys);
      ListsRest(t, keys);
      ListsOne(s[1..], t[1..], keys - {s[0]});
      assert s == [s[0]] + s[1..] && t == [t[0]] + t[1..];
    }
  }

  lemma FirstListed(s: seq<bytes>, keys: set<bytes>)
    requires Lists(s, keys)
    ensures s != [] ==> s[0] in keys
  {
  }

  lemma ListsRest(s: seq<bytes>, keys: set<bytes>)
    requires Lists(s, keys) && s != []
    ensures Lists(s[1..], keys - {s[0]})
  {
    forall k ensures k in keys - {s[0]} <==> k in s[1..] {
      if k in s[1..] {
        var i :| 0 <= i < |s| - 1 && s[1..][i] == k;
        LessTotal(s[0], s[i + 1]);
        assert s[i + 1] in s;
      }
      if k in keys - {s[0]} {
        var i :| 0 <= i < |s| && s[i] == k;
        assert s[1..][i - 1] == k;
      }
    }
  }

  function Insert(s: seq<bytes>, k: bytes): seq<bytes> {
    if s == [] || Less(k, s[0]) then [k] + s else [s[0]] + Insert(s[1..], k)
  }

  lemma {:induction false} InsertLists(s: seq<bytes>, k: bytes, keys: set<bytes>)
    requires Lists(s, keys) && k !in keys
    ensures Lists(Insert(s, k), keys + {k})
  {
    if s == [] || Less(k, s[0]) {
      FrontLists(s, k, keys);
    } else {
      LessTotal(s[0], k);
      assert s[0] in s;
      ListsRest(s, keys);
      InsertLists(s[1..], k, keys - {s[0]});
      var t := Insert(s[1..], k);
      forall x | x in t ensures Less(s[0], x) {
        if x != k {
          var i :| 0 <= i < |s| - 1 && s[1..][i] == x;
          assert s[i + 1] == x;
        }
      }
      assert s[0] !in keys - {s[0]} + {k};
      LeastLists(t, s[0], keys - {s[0]} + {k});
      assert keys - {s[0]} + {k} + {s[0]} == keys + {k};
    }
  }

  lemma FrontLists(s: seq<bytes>, k: bytes, keys: set<bytes>)
    requires Lists(s, keys) && (s == [] || Less(k, s[0]))
    ensures Lists([k] + s, keys + {k})
  {
    forall x | x in s ensures Less(k, x) {
      var i :| 0 <= i < |s| && s[i] == x;
      if i > 0 { LessTransitive(k, s[0], s[i]); }
    }
    LeastLists(s, k, keys);
  }

  lemma LeastLists(s: seq<bytes>, k: bytes, keys: set<bytes>)
    requires Lists(s, keys) && forall x :: x in s ==> Less(k, x)
    ensures Lists([k] + s, keys + {k})
  {
    hide Less;
    var t := [k] + s;
    assert forall i :: 0 < i < |t| ==> t[i] == s[i - 1] && t[i] in s;
    forall x ensures x in keys + {k} <==> x in t {
      if x in s {
        var i :| 0 <= i < |s| && s[i] == x;
        assert t[i + 1] == x;
      }
      assert t[0] == k;
    }
  }

  /** The keys in order. */
  ghost function Sorted(keys: set<bytes>): (s: seq<bytes>)
    ensures Lists(s, keys)
    decreases |keys|
  {
    if keys == {} then []
    else
      var k :| k in keys;
      assert keys - {k} + {k} == keys;
      InsertLists(Sorted(keys - {k}), k, keys - {k});
      Insert(Sorted(keys - {k}), k)
  }

  /** The keys of the map in ascending order. */
  method SortedKeys(keys: set<bytes>) returns (s: seq<bytes>)
    ensures s == Sorted(keys)
  {
    s := [];
    var left := keys;
    while left != {}
      invariant left <= keys && Lists(s, keys - left)
      decreases |left|
    {
      var k :| k in left;
      InsertLists(s, k, keys - left);
      s := Insert(s, k);
      assert keys - left + {k} == keys - (left - {k});
      left := left - {k};
    }
    assert keys - left == keys;
    ListsOne(s, Sorted(keys), keys);
  }

  // ---- The tree that is written ----

  /** "(string)": the type that the encoder appends to every key. */
  const SUFFIX: bytes := [0x28, 0x73, 0x74, 0x72, 0x69, 0x6E, 0x67, 0x29]

  /** The literal of a Number; the empty one is its zero value. */
  function NumberText(literal: bytes): bytes {
    if literal == [] then [0x30] else literal
  }

  /** Every Number is a valid literal. */
  ghost predicate Encodable(j: Json) {
    match j
    case Number(l) => IsNumber(NumberText(l))
    case List(items) => forall i :: 0 <= i < |items| ==> Encodable(items[i])
    case Dict(entries) => forall k :: k in entries ==> Encodable(entries[k])
    case _ => true
  }

  ghost function Tree(j: Json, html: bool): Val
    decreases j, 1
  {
    match j
    case Null => Lit(NULL)
    case Bool(b) => Lit(if b then TRUE else FALSE)
    case Number(l) => Lit(NumberText(l))
    case Str(s) => Lit(Quote(s, html))
    case List(items) => Arr([], seq(|items|, i requires 0 <= i < |items| => Elem([], Tree(items[i], html), [])))
    case Dict(entries) => Obj([], Members(j, Sorted(entries.Keys), html))
  }

  /** The members for the keys `ks` of a map. */
  ghost function Members(j: Json, ks: seq<bytes>, html: bool): (ms: seq<Member>)
    requires j.Dict? && forall k :: k in ks ==> k in j.entries
    decreases j, 0
  {
    seq(|ks|, i requires 0 <= i < |ks| => Member([], Quote(ks[i] + SUFFIX, html), [], [], Tree(j.entries[ks[i]], html), []))
  }

  // ---- The encoder ----

  lemma ZeroIsNumber()
    ensures IsNumber([0x30])
  {
    assert IsMinus([]) && IsWhole([0x30]) && IsFraction([]) && IsExponent([]);
    assert [0x30] == [] + [0x30] + [] + [];
  }

  /** The Number branch of stringEncoder. */
  method EncodeNumber(e: Buffer, literal: bytes) returns (ok: bool)
    modifies e
    ensures literal == [] ==> ok && e.buf == old(e.buf) + [0x30]
    ensures literal != [] ==> (ok <==> IsNumber(literal)) && (ok ==> e.buf == old(e.buf) + literal)
    ensures ok <==> IsNumber(NumberText(literal))
    ensures ok ==> e.buf == old(e.buf) + NumberText(literal)
  {
    ZeroIsNumber();
    var numStr := literal;
    if numStr == [] {
      numStr := [0x30]; // an unset Number is 0
    }
    ok := JsonNumber.IsValidNumber(numStr);
    if ok { e.Write(numStr); }
  }

  /** reflectValue: false stands for the panic that makes Marshal return an error. */
  method EncodeValue(e: Buffer, j: Json, html: bool) returns (ok: bool)
    modifies e
    ensures ok <==> Encodable(j)
    ensures ok ==> e.buf == old(e.buf) + Text(Tree(j, html))
    decreases j, 1
  {
    match j
    case Null =>
      e.Write(NULL);
      ok := true;
    case Bool(b) =>
      e.Write(if b then TRUE else FALSE);
      ok := true;
    case Number(l) => ok := EncodeNumber(e, l);
    case Str(s) =>
      var _ := e.String(s, html);
      ok := true;
    case List(_) => ok := EncodeList(e, j, html);
    case Dict(_) => ok := EncodeDict(e, j, html);
  }

  /** arrayEncoder.encode */
  method EncodeList(e: Buffer, j: Json, html: bool) returns (ok: bool)
    requires j.List?
    modifies e
    ensures ok <==> Encodable(j)
    ensures ok ==> e.buf == old(e.buf) + Text(Tree(j, html))
    decreases j, 0
  {
    hide *;
    ghost var es := TreeElems(j, html);
    e.WriteByte(LBRACK);
    var n := |j.items|;
    var i := 0;
    ElemsBegin(es);
    while i < n
      invariant i <= n && forall k :: 0 <= k < i ==> Encodable(j.items[k])
      invariant e.buf == old(e.buf) + [LBRACK] + ElemsUpTo(es, i)
    {
      ghost var buf := e.buf;
      if i > 0 { e.WriteByte(COMMA); }
      ghost var before := e.buf;
      var more := EncodeValue(e, j.items[i], html);
      if !more {
        NotEncodable(j, i);
        return false;
      }
      ElemsOneMore(j, html, i, old(e.buf) + [LBRACK]);
      i := i + 1;
    }
    e.WriteByte(RBRACK);
    ListEncodable(j);
    ListEncoded(j, html, old(e.buf));
    ok := true;
  }

  ghost function TreeElems(j: Json, html: bool): (es: seq<Elem>)
    requires j.List?
    ensures |es| == |j.items| && forall i :: 0 <= i < |es| ==> es[i] == Elem([], Tree(j.items[i], html), [])
  {
    seq(|j.items|, i requires 0 <= i < |j.items| => Elem([], Tree(j.items[i], html), []))
  }

  /** The text of the first `i` elements. */
  function ElemsUpTo(es: seq<Elem>, i: nat): bytes
    requires i <= |es|
  {
    if i == 0 then [] else ElemsText(es[..i])
  }

  lemma ElemsBegin(es: seq<Elem>)
    ensures ElemsUpTo(es, 0) == []
  {
  }

  lemma NotEncodable(j: Json, i: nat)
    requires j.List? && i < |j.items| && !Encodable(j.items[i])
    ensures !Encodable(j)
  {
  }

  lemma ElemsOneMore(j: Json, html: bool, i: nat, buf: bytes)
    requires j.List? && i < |j.items|
    ensures buf + ElemsUpTo(TreeElems(j, html), i) + (if i > 0 then [COMMA] else []) + Text(Tree(j.items[i], html))
         == buf + ElemsUpTo(TreeElems(j, html), i + 1)
    ensures i == 0 ==> buf + ElemsUpTo(TreeElems(j, html), i) + Text(Tree(j.items[i], html)) == buf + ElemsUpTo(TreeElems(j, html), i + 1)
  {
    hide Tree, Text, ElemsText;
    var es := TreeElems(j, html);
    hide TreeElems;
    assert es[..i + 1][..i] == es[..i];
    BareElem(Tree(j.items[i], html));
    ElemsTextSnoc(es[..i + 1]);
    var none: bytes := [];
    assert buf + none == buf;
  }

  lemma ListEncodable(j: Json)
    requires j.List? && forall k :: 0 <= k < |j.items| ==> Encodable(j.items[k])
    ensures Encodable(j)
  {
  }

  lemma ListEncoded(j: Json, html: bool, buf: bytes)
    requires j.List?
    ensures buf + [LBRACK] + ElemsUpTo(TreeElems(j, html), |j.items|) + [RBRACK] == buf + Text(Tree(j, html))
  {
    hide *;
    TreeOfList(j, html);
    var es := TreeElems(j, html);
    TextOfElems(es);
    var text := ElemsUpTo(es, |es|);
    assert buf + ([LBRACK] + text + [RBRACK]) == buf + [LBRACK] + text + [RBRACK];
  }

  lemma TextOfElems(es: seq<Elem>)
    ensures Text(Arr([], es)) == [LBRACK] + ElemsUpTo(es, |es|) + [RBRACK]
  {
    hide ElemsText;
    assert es[..|es|] == es;
  }

  lemma TreeOfList(j: Json, html: bool)
    requires j.List?
    ensures Tree(j, html) == Arr([], TreeElems(j, html))
  {
    assert Tree(j, html).elems == TreeElems(j, html);
  }

  /** mapEncoder.encode */
  method EncodeDict(e: Buffer, j: Json, html: bool) returns (ok: bool)
    requires j.Dict?
    modifies e
    ensures ok <==> Encodable(j)
    ensures ok ==> e.buf == old(e.buf) + Text(Tree(j, html))
    decreases j, 0
  {
    hide *;
    KeysListed(j);
    e.WriteByte(LBRACE);

    var sv := SortedKeys(j.entries.Keys);
    ghost var ms := Members(j, sv, html);
    var i := 0;
    MembersAre(j, sv, html);
    MembersBegin(ms);
    while i < |sv|
      invariant i <= |sv| && forall k :: 0 <= k < i ==> Encodable(j.entries[sv[k]])
      invariant e.buf == old(e.buf) + [LBRACE] + MembersUpTo(ms, i)
    {
      var key := sv[i];
      ghost var buf := e.buf;
      if i > 0 { e.WriteByte(COMMA); }
      var _ := e.String(key + SUFFIX, html);
      e.WriteByte(COLON);
      var more := EncodeValue(e, j.entries[key], html);
      if !more {
        NotEncodableAt(j, key);
        return false;
      }
      MembersOneMore(j, sv, html, i, old(e.buf) + [LBRACE]);
      assert e.buf == buf + (if i > 0 then [COMMA] else []) + Quote(key + SUFFIX, html) + [COLON] + Text(Tree(j.entries[key], html));
      i := i + 1;
    }
    e.WriteByte(RBRACE);
    DictEncoded(j, sv, html, old(e.buf));
    ok := true;
  }

  lemma KeysListed(j: Json)
    requires j.Dict?
    ensures forall k :: k in Sorted(j.entries.Keys) <==> k in j.entries
  {
    assert Lists(Sorted(j.entries.Keys), j.entries.Keys);
  }

  function MembersUpTo(ms: seq<Member>, i: nat): bytes
    requires i <= |ms|
  {
    if i == 0 then [] else MembersText(ms[..i])
  }

  lemma MembersBegin(ms: seq<Member>)
    ensures MembersUpTo(ms, 0) == []
  {
  }

  lemma NotEncodableAt(j: Json, k: bytes)
    requires j.Dict? && k in j.entries && !Encodable(j.entries[k])
    ensures !Encodable(j)
  {
  }

  lemma MembersAre(j: Json, sv: seq<bytes>, html: bool)
    requires j.Dict? && forall k :: k in sv ==> k in j.entries
    ensures |Members(j, sv, html)| == |sv|
    ensures forall i :: 0 <= i < |sv| ==>
      Members(j, sv, html)[i] == Member([], Quote(sv[i] + SUFFIX, html), [], [], Tree(j.entries[sv[i]], html), [])
  {
  }

  lemma MembersOneMore(j: Json, sv: seq<bytes>, html: bool, i: nat, buf: bytes)
    requires j.Dict? && (forall k :: k in sv ==> k in j.entries) && i < |sv|
    ensures |Members(j, sv, html)| == |sv|
    ensures buf + MembersUpTo(Members(j, sv, html), i) + (if i > 0 then [COMMA] else []) + Quote(sv[i] + SUFFIX, html) + [COLON]
              + Text(Tree(j.entries[sv[i]], html))
         == buf + MembersUpTo(Members(j, sv, html), i + 1)
  {
    hide Tree, Text, Quote, MembersText;
    MembersAre(j, sv, html);
    var ms := Members(j, sv, html);
    hide Members;
    assert ms[..i + 1][..i] == ms[..i];
    BareMember(ms[i].key, ms[i].val);
    MembersTextSnoc(ms[..i + 1]);
  }

  lemma DictEncoded(j: Json, sv: seq<bytes>, html: bool, buf: bytes)
    requires j.Dict? && sv == Sorted(j.entries.Keys) && forall k :: k in sv <==> k in j.entries
    ensures (forall i :: 0 <= i < |sv| ==> Encodable(j.entries[sv[i]])) ==> Encodable(j)
    ensures |Members(j, sv, html)| == |sv|
    ensures buf + [LBRACE] + MembersUpTo(Members(j, sv, html), |sv|) + [RBRACE] == buf + Text(Tree(j, html))
  {
    hide *;
    MembersAre(j, sv, html);
    var ms := Members(j, sv, html);
    TextOfDict(j, sv, html);
    var text := MembersUpTo(ms, |ms|);
    assert buf + ([LBRACE] + text + [RBRACE]) == buf + [LBRACE] + text + [RBRACE];
    if forall i :: 0 <= i < |sv| ==> Encodable(j.entries[sv[i]]) { AllEncodable(j, sv); }
  }

  lemma TextOfDict(j: Json, sv: seq<bytes>, html: bool)
    requires j.Dict? && sv == Sorted(j.entries.Keys) && forall k :: k in sv ==> k in j.entries
    ensures var ms := Members(j, sv, html); Text(Tree(j, html)) == [LBRACE] + MembersUpTo(ms, |ms|) + [RBRACE]
  {
    hide Members, MembersText, Sorted, Text;
    var ms := Members(j, sv, html);
    assert Tree(j, html) == Obj([], ms);
    TextOfMembers(ms);
  }

  lemma TextOfMembers(ms: seq<Member>)
    ensures Text(Obj([], ms)) == [LBRACE] + MembersUpTo(ms, |ms|) + [RBRACE]
  {
    hide MembersText;
    assert ms[..|ms|] == ms;
  }

  lemma AllEncodable(j: Json, sv: seq<bytes>)
    requires j.Dict? && forall k :: k in sv <==> k in j.entries
    requires forall i :: 0 <= i < |sv| ==> Encodable(j.entries[sv[i]])
    ensures Encodable(j)
  {
    forall k | k in j.entries
      ensures Encodable(j.entries[k])
    {
      assert k in sv;
      var i :| 0 <= i < |sv| && sv[i] == k;
      assert Encodable(j.entries[sv[i]]);
    }
  }

  /** Marshal */
  method Marshal(j: Json, html: bool) returns (r: Option<bytes>)
    ensures r == if Encodable(j) then Some(Text(Tree(j, html))) else None
  {
    var e := new Buffer();
    var ok := EncodeValue(e, j, html);
    if !ok { return None; }
    hide *;
    assert [] + Text(Tree(j, html)) == Text(Tree(j, html));
    r := Some(e.buf);
  }
}
