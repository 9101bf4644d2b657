/** Failure-carrying values: Kotlin's nullable types become Option, and
    Kotlin's Result<T> (or a thrown exception) becomes Result with a message. */
module Wrappers {

  datatype Option<+T> = None | Some(value: T)

  datatype Result<+T> = Ok(value: T) | Err(error: string) {
    predicate IsFailure() { Err? }
    function PropagateFailure<U>(): Result<U> requires Err? { Err(error) }
    function Extract(): T requires Ok? { value }
  }

  /** A Kotlin Result<Unit>: success, or failure with the exception's message. */
  datatype Outcome = Pass | Fail(error: string) {
    predicate IsFailure() { Fail? }
    function PropagateFailure(): Outcome requires Fail? { this }
  }

  /** A JVM byte, in the unsigned view that `%02x` formatting uses. */
  newtype byte = x: int | 0 <= x < 256

  /** The set of elements of a sequence. */
  function Elements<T>(s: seq<T>): set<T>
  {
    set i | 0 <= i < |s| :: s[i]
  }

  /** No element occurs twice. */
  ghost predicate Distinct<T>(s: seq<T>)
  {
    forall i, j :: 0 <= i < j < |s| ==> s[i] != s[j]
  }

  /** A sequence without repetitions has as many elements as its set. */
  lemma {:induction false} DistinctCardinality<T>(s: seq<T>)
    requires Distinct(s)
    ensures |Elements(s)| == |s|
  {
    if s != [] {
      var t := s[..|s| - 1];
      assert Distinct(t);
      DistinctCardinality(t);
      assert Elements(s) == Elements(t) + {s[|s| - 1]} by {
        forall x | x in Elements(s) ensures x in Elements(t) + {s[|s| - 1]} {
          var i :| 0 <= i < |s| && s[i] == x;
          if i < |s| - 1 { assert t[i] == x; }
        }
      }
      assert s[|s| - 1] !in Elements(t) by {
        forall i | 0 <= i < |t| ensures t[i] != s[|s| - 1] {
          assert t[i] == s[i];
        }
      }
    }
  }

  lemma ElementsSnoc<T>(s: seq<T>, x: T)
    ensures Elements(s + [x]) == Elements(s) + {x}
  {
    var l := s + [x];
    forall y | y in Elements(l) ensures y in Elements(s) + {x} {
      var i :| 0 <= i < |l| && l[i] == y;
      if i < |s| { assert s[i] == y; }
    }
    forall y | y in Elements(s) ensures y in Elements(l) {
      var i :| 0 <= i < |s| && s[i] == y;
      assert l[i] == y;
    }
    assert l[|s|] == x;
  }

  lemma DistinctSnoc<T>(s: seq<T>, x: T)
    requires Distinct(s) && x !in Elements(s)
    ensures Distinct(s + [x])
  {
    var l := s + [x];
    forall i, j | 0 <= i < j < |l| ensures l[i] != l[j] {
      if j == |s| {
        assert l[i] == s[i];
      }
    }
  }
}
