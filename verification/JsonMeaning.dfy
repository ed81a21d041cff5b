/** What a JSON text denotes when numbers are kept as they are written. */
module JsonMeaning {
  import opened Options
  import opened Bytes
  import opened JsonScanner
  import opened JsonLexemes
  import opened JsonGrammar
  import opened JsonStrings

  /** The values an empty interface can receive. */
  datatype Json =
    | Null
    | Bool(b: bool)
    | Number(literal: bytes)
    | Str(s: bytes)
    | List(items: seq<Json>)
    | Dict(entries: map<bytes, Json>)

  /** The string that a key or string literal denotes. */
  function StringOf(text: bytes): bytes {
    match Unquote(text)
    case Some(s) => s
    case None => []
  }

  function Denote(v: Val): Json {
    match v
    case Lit(text) =>
      if text == NULL then Null
      else if text == TRUE then Bool(true)
      else if text == FALSE then Bool(false)
      else if text != [] && text[0] == QUOTE then Str(StringOf(text))
      else Number(text)
    case Arr(_, elems) => List(seq(|elems|, i requires 0 <= i < |elems| => Denote(elems[i].val)))
    case Obj(_, members) => Dict(Entries(members))
  }

  /** Of members with the same key the last one counts. */
  function Entries(ms: seq<Member>): map<bytes, Json> {
    if ms == [] then map[]
    else Entries(ms[..|ms| - 1])[StringOf(ms[|ms| - 1].key) := Denote(ms[|ms| - 1].val)]
  }

  /** The member that decides the entry for `k`. */
  predicate IsLast(ms: seq<Member>, k: bytes, i: nat) {
    i < |ms| && StringOf(ms[i].key) == k && forall j :: i < j < |ms| ==> StringOf(ms[j].key) != k
  }

  /** An object has an entry for each key among its members, and the entry is the last such member's value. */
  lemma {:induction false} LastWins(ms: seq<Member>, k: bytes, i: nat)
    requires IsLast(ms, k, i)
    ensures k in Entries(ms) && Entries(ms)[k] == Denote(ms[i].val)
  {
    hide StringOf, Denote;
    var n := |ms| - 1;
    if i < n {
      assert forall j :: i < j < n ==> ms[..n][j] == ms[j];
      LastWins(ms[..n], k, i);
    }
  }

  lemma {:induction false} OnlyKeys(ms: seq<Member>, k: bytes) returns (i: nat)
    requires k in Entries(ms)
    ensures IsLast(ms, k, i)
  {
    hide StringOf, Denote;
    var n := |ms| - 1;
    if StringOf(ms[n].key) == k {
      i := n;
    } else {
      i := OnlyKeys(ms[..n], k);
    }
  }
}
