/** First-match searches: the early-return `for` loops of the source, over an index range. */
module Find {
  import opened Wrappers

  /** The least index j of [i, n) at which `f` gives a value. */
  function FirstSome<T>(f: nat -> Option<T>, n: nat, i: nat): (r: Option<nat>)
    requires i <= n
    decreases n - i
    ensures r.Some? ==> i <= r.value < n && f(r.value).Some?
    ensures forall j :: i <= j < (if r.Some? then r.value else n) ==> f(j).None?
  {
    if i == n then None
    else if f(i).Some? then Some(i)
    else FirstSome(f, n, i + 1)
  }

  /** A hit at j with none before it is the one `FirstSome` reports. */
  lemma FirstSomeIsLeast<T>(f: nat -> Option<T>, n: nat, j: nat)
    requires j < n && f(j).Some?
    requires forall j' :: 0 <= j' < j ==> f(j').None?
    ensures FirstSome(f, n, 0) == Some(j)
  {
  }

  /** The value found by `FirstSome`, if any. */
  function FirstValue<T>(f: nat -> Option<T>, n: nat): (r: Option<T>)
    ensures r.None? <==> forall j :: 0 <= j < n ==> f(j).None?
    ensures r.Some? ==> exists j :: 0 <= j < n && f(j) == r && forall j' :: 0 <= j' < j ==> f(j').None?
  {
    match FirstSome(f, n, 0)
    case Some(j) => f(j)
    case None => None
  }

  /** The value of the first element of `s`, in order, that `g` gives one for. */
  function FirstMapped<T, U>(s: seq<T>, g: T -> Option<U>): Option<U> {
    FirstValue((j: nat) => if j < |s| then g(s[j]) else None, |s|)
  }

  /** Nothing exactly when `g` gives nothing for every element; otherwise the first value. */
  lemma FirstMappedSpec<T, U>(s: seq<T>, g: T -> Option<U>)
    ensures FirstMapped(s, g).None? <==> forall j :: 0 <= j < |s| ==> g(s[j]).None?
    ensures FirstMapped(s, g).Some? ==>
              exists j :: 0 <= j < |s| && g(s[j]) == FirstMapped(s, g) && forall j' :: 0 <= j' < j ==> g(s[j']).None?
  {
    var f := (j: nat) => if j < |s| then g(s[j]) else None;
    assert forall j :: 0 <= j < |s| ==> f(j) == g(s[j]);
  }

  /** An element with a value and none before it yields that value. */
  lemma FirstMappedPicks<T, U>(s: seq<T>, g: T -> Option<U>, j: nat)
    requires j < |s| && g(s[j]).Some?
    requires forall j' :: 0 <= j' < j ==> g(s[j']).None?
    ensures FirstMapped(s, g) == g(s[j])
  {
    var f := (j: nat) => if j < |s| then g(s[j]) else None;
    FirstSomeIsLeast(f, |s|, j);
  }
}
