/** Small helpers shared by the whole model: an optional value, the ordered
    de-duplication that `list(dict.fromkeys(xs))` performs, the maximum and
    minimum over the non-null values of a list (`max_or_none`/`min_or_none`),
    Python's `s[:n]` and `a or b` on strings, and the text helpers the
    repository imports from elsewhere, passed in as functions. */
module Common {

  datatype Option<+T> = None | Some(value: T)

  datatype Result<+T, +E> = Success(value: T) | Failure(error: E)

  /** The helpers the core calls but does not define: `slugify`,
      `get_nb_words_from_html` and `full_sanitize`. */
  datatype TextOps = TextOps(
    slugify: string -> string,
    nbWords: string -> nat,
    sanitize: string -> string)

  predicate NoDuplicates<T(==)>(s: seq<T>) {
    forall i, j :: 0 <= i < j < |s| ==> s[i] != s[j]
  }

  /** `list(dict.fromkeys(s))`: the distinct elements of `s`, each at the
      place where it is first seen. */
  function Dedup<T(==,!new)>(s: seq<T>): (r: seq<T>)
    ensures NoDuplicates(r)
    ensures forall x :: x in r <==> x in s
    ensures |r| <= |s|
    decreases |s|
  {
    if |s| == 0 then []
    else
      var prefix := Dedup(s[..|s| - 1]);
      assert forall x :: x in s <==> x in s[..|s| - 1] || x == s[|s| - 1] by {
        assert s == s[..|s| - 1] + [s[|s| - 1]];
      }
      if s[|s| - 1] in prefix then prefix else prefix + [s[|s| - 1]]
  }

  /** A list that already has no duplicate is left as it is. */
  lemma {:induction false} DedupOfDistinct<T(!new)>(s: seq<T>)
    requires NoDuplicates(s)
    ensures Dedup(s) == s
    decreases |s|
  {
    if |s| > 0 {
      var init := s[..|s| - 1];
      assert NoDuplicates(init);
      DedupOfDistinct(init);
      assert s[|s| - 1] !in init;
      assert s == init + [s[|s| - 1]];
    }
  }

  /** De-duplicating `a + b` keeps the de-duplicated `a` in front: what was
      first seen in `a` stays where it was, and `b` only adds at the end. */
  lemma {:induction false} DedupKeepsPrefix<T(!new)>(a: seq<T>, b: seq<T>)
    ensures |Dedup(a)| <= |Dedup(a + b)|
    ensures Dedup(a + b)[..|Dedup(a)|] == Dedup(a)
    decreases |b|
  {
    if |b| == 0 {
      assert a + b == a;
    } else {
      var b' := b[..|b| - 1];
      DedupKeepsPrefix(a, b');
      assert (a + b)[..|a + b| - 1] == a + b';
      var d := Dedup(a + b');
      assert Dedup(a + b) == d || Dedup(a + b) == d + [b[|b| - 1]];
      assert Dedup(a + b)[..|d|] == d;
    }
  }

  /** With a duplicate-free `a`, `Dedup(a + b)` starts with `a` itself and
      holds every element of `b`. */
  lemma DedupUnionOfDistinct<T(!new)>(a: seq<T>, b: seq<T>)
    requires NoDuplicates(a)
    ensures |a| <= |Dedup(a + b)| && Dedup(a + b)[..|a|] == a
    ensures forall x :: x in b ==> x in Dedup(a + b)
  {
    DedupOfDistinct(a);
    DedupKeepsPrefix(a, b);
  }

  /** The largest of the non-null values, or None when there is none. */
  function MaxOrNone(xs: seq<Option<int>>): (r: Option<int>)
    ensures r.None? <==> forall i :: 0 <= i < |xs| ==> xs[i].None?
    ensures r.Some? ==> exists i :: 0 <= i < |xs| && xs[i] == r
    ensures r.Some? ==> forall i :: 0 <= i < |xs| && xs[i].Some? ==> xs[i].value <= r.value
  {
    if |xs| == 0 then None
    else
      var rest := MaxOrNone(xs[1..]);
      assert forall i :: 1 <= i < |xs| ==> xs[i] == xs[1..][i - 1];
      match xs[0]
      case None => rest
      case Some(v) => if rest.Some? && rest.value >= v then rest else Some(v)
  }

  /** The smallest of the non-null values, or None when there is none. */
  function MinOrNone(xs: seq<Option<int>>): (r: Option<int>)
    ensures r.None? <==> forall i :: 0 <= i < |xs| ==> xs[i].None?
    ensures r.Some? ==> exists i :: 0 <= i < |xs| && xs[i] == r
    ensures r.Some? ==> forall i :: 0 <= i < |xs| && xs[i].Some? ==> r.value <= xs[i].value
  {
    if |xs| == 0 then None
    else
      var rest := MinOrNone(xs[1..]);
      assert forall i :: 1 <= i < |xs| ==> xs[i] == xs[1..][i - 1];
      match xs[0]
      case None => rest
      case Some(v) => if rest.Some? && rest.value <= v then rest else Some(v)
  }

  /** Python's `s[:n]`. */
  function Truncate(s: string, n: nat): (r: string)
    ensures |r| <= n && |r| <= |s|
    ensures r == s[..|r|]
    ensures |s| <= n ==> r == s
    ensures |s| > n ==> r == s[..n]
  {
    if |s| <= n then s else s[..n]
  }

  /** Python's `a or b` on two strings: `a` unless it is empty. */
  function OrElse(a: string, b: string): (r: string)
    ensures r == a || r == b
    ensures r == "" <==> a == "" && b == ""
    ensures a != "" ==> r == a
    ensures a == "" ==> r == b
  {
    if a != "" then a else b
  }

  /** The HTTP statuses the views answer with. */
  datatype HttpStatus = Ok | Created | BadRequest | NotAcceptable | Conflict

  /** Success statuses are the 2xx codes, rejections the 4xx codes. */
  function Code(s: HttpStatus): (c: int)
    ensures 200 <= c < 500
    ensures c < 300 <==> s == Ok || s == Created
  {
    match s
    case Ok => 200
    case Created => 201
    case BadRequest => 400
    case NotAcceptable => 406
    case Conflict => 409
  }
}
