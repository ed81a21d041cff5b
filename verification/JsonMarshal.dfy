/**
 The form of Marshal's output: no white space between tokens, nothing that HTML or JSONP could misread, and
 the members of an object by ascending keys.
 */
module JsonMarshal {
  import opened Options
  import opened Bytes
  import opened JsonScanner
  import opened JsonLexemes
  import opened JsonGrammar
  import opened JsonMeaning
  import opened JsonStrings
  import opened JsonEscape
  import opened JsonEncoder
  import opened JsonTrace
  import opened JsonCompact
  import opened JsonSqueeze
  import opened JsonLiterals
  import JsonNumber
  import JsonRoundTrip

  /** Where there is nothing to escape, nothing changes. */
  lemma {:induction false} CleanStays(s: bytes, html: bool)
    requires NoLineSeparator(s) && (html ==> NoHtml(s))
    ensures Escape(s, html) == s
  {
    if s != [] {
      assert !SeparatorAt(s, 0);
      forall i: nat ensures !SeparatorAt(s[1..], i) {
        assert !SeparatorAt(s, i + 1);
      }
      EscapeFront(s, html);
      CleanStays(s[1..], html);
      assert EscapeUnit(s, html) == None;
      hide Escape, EscapeUnit;
    }
  }

  lemma QuoteStaysEscaped(s: bytes, html: bool)
    ensures Escape(Quote(s, html), html) == Quote(s, html)
  {
    hide *;
    QuoteClean(s, html);
    CleanStays(Quote(s, html), html);
  }

  lemma NameStays(text: bytes, html: bool)
    requires text == NULL || text == TRUE || text == FALSE
    ensures Escape(text, html) == text
  {
    assert IsName(text);
    hide Escape;
    EscapeOther(text, html);
  }

  lemma NumberStays(text: bytes, html: bool)
    requires IsNumber(text)
    ensures Escape(text, html) == text
  {
    NumberFirst(text);
    hide Escape, IsNumber;
    EscapeOther(text, html);
  }

  lemma NumberFirst(text: bytes)
    requires IsNumber(text)
    ensures text != [] && text[0] != QUOTE
  {
    NumberIff(text);
    JsonNumber.NumberFirst(text);
    hide IsNumber;
  }

  /** Compaction finds nothing to do in the tree that is written. */
  lemma {:induction false} TreeSqueezed(j: Json, html: bool)
    requires Encodable(j)
    ensures Squeeze(Tree(j, html), html) == Tree(j, html)
  {
    match j
    case Null => NameStays(NULL, html);
    case Bool(b) => NameStays(if b then TRUE else FALSE, html);
    case Number(l) => NumberStays(NumberText(l), html);
    case Str(s) => QuoteStaysEscaped(s, html);
    case List(items) =>
      forall i | 0 <= i < |items| ensures Squeeze(Tree(items[i], html), html) == Tree(items[i], html) {
        TreeSqueezed(items[i], html);
      }
      hide *;
      ListSqueezed(j, html);
    case Dict(entries) =>
      forall k | k in entries ensures Squeeze(Tree(entries[k], html), html) == Tree(entries[k], html) {
        TreeSqueezed(entries[k], html);
      }
      hide *;
      DictSqueezed(j, html);
  }

  lemma ListSqueezed(j: Json, html: bool)
    requires j.List? && forall i :: 0 <= i < |j.items| ==> Squeeze(Tree(j.items[i], html), html) == Tree(j.items[i], html)
    ensures Squeeze(Tree(j, html), html) == Tree(j, html)
  {
    TreeOfList(j, html);
    var es := TreeElems(j, html);
    hide Tree;
    assert forall i :: 0 <= i < |es| ==> SqueezeElem(es[i], html) == es[i];
    assert SqueezeElems(es, html) == es;
  }

  lemma DictSqueezed(j: Json, html: bool)
    requires j.Dict? && forall k :: k in j.entries ==> Squeeze(Tree(j.entries[k], html), html) == Tree(j.entries[k], html)
    ensures Squeeze(Tree(j, html), html) == Tree(j, html)
  {
    var sv := Sorted(j.entries.Keys);
    KeysListed(j);
    MembersAre(j, sv, html);
    JsonRoundTrip.TreeOfDict(j, html);
    hide Tree, Members, Quote, Sorted, Escape;
    var ms := Members(j, sv, html);
    forall i | 0 <= i < |ms| ensures SqueezeMember(ms[i], html) == ms[i] {
      assert sv[i] in sv;
      QuoteStaysEscaped(sv[i] + SUFFIX, html);
    }
    hide SqueezeMember;
    assert SqueezeMembers(ms, html) == ms;
  }

  /** Marshal's output is compact and escaped already. */
  lemma MarshalCompact(j: Json, html: bool)
    requires Encodable(j)
    ensures Compacted(Text(Tree(j, html)), html) == Significant(Text(Tree(j, html))) == Text(Tree(j, html))
    ensures NoLineSeparator(Text(Tree(j, html))) && (html ==> NoHtml(Text(Tree(j, html))))
  {
    var v := Tree(j, html);
    JsonRoundTrip.MarshalValid(j, html);
    TreeSqueezed(j, html);
    StripSqueezed(v, html);
    JsonRoundTrip.TreeWf(j, html);
    SqueezeText(v, html);
    hide *;
    SignificantText(Text(v), [], v, []);
    CompactedIs(Text(v), html);
    EscapeClean(Text(v), html);
  }

  lemma CompactedIs(src: bytes, html: bool)
    ensures Compacted(src, html) == Escape(Significant(src), html)
  {
  }

  /** What the order of the keys is: the first byte that differs decides, and a key comes before its extensions. */
  lemma {:induction false} LessMeans(a: bytes, b: bytes)
    ensures Less(a, b) <==> exists n: nat :: FirstDifference(a, b, n)
  {
    if a == [] || b == [] || a[0] != b[0] {
      if a == [] && b != [] { assert FirstDifference(a, b, 0); }
      if a != [] && b != [] && a[0] < b[0] { assert FirstDifference(a, b, 0); }
      if n: nat :| FirstDifference(a, b, n) { DiffersAtOnce(a, b, n); }
    } else {
      LessMeans(a[1..], b[1..]);
      if n: nat :| FirstDifference(a[1..], b[1..], n) {
        assert a[..n + 1] == [a[0]] + a[1..][..n] && b[..n + 1] == [b[0]] + b[1..][..n];
        assert FirstDifference(a, b, n + 1);
      }
      if n: nat :| FirstDifference(a, b, n) {
        assert n > 0;
        assert a[1..][..n - 1] == a[..n][1..] && b[1..][..n - 1] == b[..n][1..];
        assert FirstDifference(a[1..], b[1..], n - 1);
      }
    }
  }

  lemma DiffersAtOnce(a: bytes, b: bytes, n: nat)
    requires a == [] || b == [] || a[0] != b[0]
    ensures FirstDifference(a, b, n) ==> n == 0
  {
    if 0 < n <= |a| && n <= |b| { assert a[..n][0] == a[0] && b[..n][0] == b[0]; }
  }

  predicate FirstDifference(a: bytes, b: bytes, n: nat) {
    n <= |a| && n < |b| && a[..n] == b[..n] && (n == |a| || a[n] < b[n])
  }
}
