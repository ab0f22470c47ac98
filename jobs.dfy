// The job record shared by every part of the aggregator, and small helpers.

module Jobs {

  /** An optional value; failure-compatible, so `:-` propagates `None`. */
  datatype Option<+T> = None | Some(value: T) {
    predicate IsFailure() { None? }

    function PropagateFailure<U>(): Option<U>
      requires None?
    {
      None
    }

    function Extract(): T
      requires Some?
    {
      value
    }
  }

  /** A point in time: whole seconds since Go's zero time, 0001-01-01 00:00:00 UTC. */
  type Instant = int

  /** The zero `time.Time`, which a job gets when it is dated "not new". */
  const ZeroTime: Instant := 0

  const SecondsPerDay: int := 86400

  /**
   * A posting. `link` is the string form of the job's URL: the registry and the
   * web page only ever use `Link.String()`.
   */
  datatype Job = Job(title: string, link: string, date: Instant)

  /** Go's strings.HasPrefix. */
  predicate StartsWith(s: string, prefix: string) {
    |prefix| <= |s| && s[..|prefix|] == prefix
  }

  /** No value occurs twice in `s`. */
  predicate NoDup<T(==)>(s: seq<T>) {
    forall i, j :: 0 <= i < j < |s| ==> s[i] != s[j]
  }

  /** The elements of a sequence, as a set. */
  function Elems<T>(s: seq<T>): set<T> {
    set x | x in s
  }

  /** A sequence without repetitions holds each value at most once. */
  lemma {:induction false} NoDupAtMostOnce<T>(s: seq<T>, x: T)
    requires NoDup(s)
    ensures multiset(s)[x] <= 1
  {
    if s != [] {
      var t := s[1..];
      assert s == [s[0]] + t;
      assert NoDup(t) by {
        forall i, j | 0 <= i < j < |t| ensures t[i] != t[j] {
          assert t[i] == s[i + 1] && t[j] == s[j + 1];
        }
      }
      NoDupAtMostOnce(t, x);
      if s[0] == x {
        assert x !in t by {
          forall i | 0 <= i < |t| ensures t[i] != x {
            assert t[i] == s[i + 1];
          }
        }
        assert multiset(t)[x] == 0;
      }
      assert multiset(s) == multiset{s[0]} + multiset(t);
    }
  }
}
