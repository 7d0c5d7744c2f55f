/** Values shared by every layer: C#'s nullable references, its exceptions, and
    the small sequence combinators the relational meaning is written with. */
module Common {

  /** A reference that may be null: `None` is C#'s null. */
  datatype Option<+T> = None | Some(value: T)

  /** The exception kinds the adapter raises or lets through. */
  datatype Error =
    | ArgumentError        // System.ArgumentException
    | ArgumentNullError    // System.ArgumentNullException
    | NullReference        // a member access on a null reference
    | InvalidOperation     // a command run on a connection that is not open
    | StorageFailure       // anything the server or the driver reports
    | NotImplemented       // System.NotImplementedException

  /** A call that returns a value or throws. */
  datatype Result<+T> = Ok(value: T) | Err(error: Error)

  /** A C# `string`: null or a sequence of characters. */
  type NStr = Option<string>

  /** `string.IsNullOrEmpty`. */
  predicate IsNullOrEmpty(s: NStr) {
    s.None? || s.value == ""
  }

  /** The one lower-casing used on both sides of a case-insensitive comparison
      (C#'s `ToLower` and PostgreSQL's `LOWER`); ASCII letters only. */
  function LowerChar(c: char): char {
    if 'A' <= c <= 'Z' then (c as int + 32) as char else c
  }

  function Lower(s: string): string {
    seq(|s|, i requires 0 <= i < |s| => LowerChar(s[i]))
  }

  /** `if (s != null) s = s.ToLower();` */
  function LowerOrNull(s: NStr): NStr {
    if s.Some? then Some(Lower(s.value)) else None
  }

  /** The rows of `s` that `keep` accepts, in their original order. */
  function Filter<T(!new)>(s: seq<T>, keep: T -> bool): (r: seq<T>)
    ensures |r| <= |s|
    ensures forall x :: x in r <==> x in s && keep(x)
  {
    if s == [] then [] else (if keep(s[0]) then [s[0]] else []) + Filter(s[1..], keep)
  }

  /** `f` applied to every element of `s`, in order. */
  function Map<T, U>(s: seq<T>, f: T -> U): (r: seq<U>)
    ensures |r| == |s|
    ensures forall i :: 0 <= i < |s| ==> r[i] == f(s[i])
  {
    seq(|s|, i requires 0 <= i < |s| => f(s[i]))
  }

  /** Splitting by a condition and by its negation loses and repeats no
      element: the two parts together are as long as the whole. */
  lemma {:induction false} FilterPartition<T(!new)>(s: seq<T>, keep: T -> bool, drop: T -> bool)
    requires forall x :: drop(x) == !keep(x)
    ensures |Filter(s, keep)| + |Filter(s, drop)| == |s|
  {
    if s != [] {
      FilterPartition(s[1..], keep, drop);
    }
  }

  /** Filtering keeps the relative order: the filtered sequence of a
      concatenation is the concatenation of the filtered parts. */
  lemma {:induction false} FilterAppend<T(!new)>(s: seq<T>, t: seq<T>, keep: T -> bool)
    ensures Filter(s + t, keep) == Filter(s, keep) + Filter(t, keep)
  {
    if s == [] {
      assert s + t == t;
    } else {
      assert (s + t)[1..] == s[1..] + t;
      FilterAppend(s[1..], t, keep);
    }
  }

  /** A filter that accepts nothing returns the empty sequence. */
  lemma {:induction false} FilterNone<T(!new)>(s: seq<T>, keep: T -> bool)
    requires forall x :: x in s ==> !keep(x)
    ensures Filter(s, keep) == []
  {
    if s != [] {
      FilterNone(s[1..], keep);
    }
  }

  /** A filter that rejects nothing returns its input unchanged. */
  lemma {:induction false} FilterAll<T(!new)>(s: seq<T>, keep: T -> bool)
    requires forall x :: x in s ==> keep(x)
    ensures Filter(s, keep) == s
  {
    if s != [] {
      FilterAll(s[1..], keep);
    }
  }
}
