/** Values shared by every part of the model: optional values, results that
    carry a thrown exception, and the "keeps only some elements, in order"
    relation that the sanitiser and the environment check both rely on. */
module Common {

  /** A JavaScript value that may be `undefined`. */
  datatype Option<+T> = None | Some(value: T)

  /** What a JavaScript `throw` can carry: an `Error` object (whose `message`
      the handlers report) or any other thrown value. */
  datatype Exception = Error(message: string) | NonError

  /** The outcome of an operation that either returns a value or throws. */
  datatype Result<+T> = Success(value: T) | Failure(error: Exception)

  /** `small` is obtained from `big` by deleting elements, keeping the order of
      the ones that stay. */
  predicate IsSubsequence<T(==)>(small: seq<T>, big: seq<T>)
    decreases |big|
  {
    if small == [] then true
    else if big == [] then false
    else if small[0] == big[0] then IsSubsequence(small[1..], big[1..])
    else IsSubsequence(small, big[1..])
  }

  lemma {:induction false} SubsequenceRefl<T>(s: seq<T>)
    ensures IsSubsequence(s, s)
  {
    if s != [] {
      SubsequenceRefl(s[1..]);
    }
  }

  /** Deleting from a subsequence still yields a subsequence. */
  lemma {:induction false} SubsequenceTrans<T>(a: seq<T>, b: seq<T>, c: seq<T>)
    requires IsSubsequence(a, b) && IsSubsequence(b, c)
    ensures IsSubsequence(a, c)
    decreases |c|
  {
    if a == [] {
    } else if b[0] == c[0] {
      if a[0] == b[0] {
        SubsequenceTrans(a[1..], b[1..], c[1..]);
      } else {
        SubsequenceTrans(a, b[1..], c[1..]);
      }
    } else {
      SubsequenceTrans(a, b, c[1..]);
      SubsequenceOfTail(a, c);
    }
  }

  /** Dropping the first element of the smaller side keeps the relation. */
  lemma {:induction false} SubsequenceDropHead<T>(a: seq<T>, b: seq<T>)
    requires a != [] && IsSubsequence(a, b)
    ensures IsSubsequence(a[1..], b)
    decreases |b|, 1
  {
    if a[0] == b[0] {
      SubsequenceOfTail(a[1..], b);
    } else {
      SubsequenceDropHead(a, b[1..]);
      SubsequenceOfTail(a[1..], b);
    }
  }

  /** A subsequence of a sequence's tail is a subsequence of the sequence. */
  lemma {:induction false} SubsequenceOfTail<T>(a: seq<T>, b: seq<T>)
    requires b != [] && IsSubsequence(a, b[1..])
    ensures IsSubsequence(a, b)
    decreases |b|, 0
  {
    if a != [] && a[0] == b[0] {
      SubsequenceDropHead(a, b[1..]);
    }
  }

  /** A subsequence of a suffix is a subsequence of the whole sequence. */
  lemma {:induction false} SubsequenceOfSuffix<T>(a: seq<T>, b: seq<T>, k: nat)
    requires k <= |b| && IsSubsequence(a, b[k..])
    ensures IsSubsequence(a, b)
    decreases k
  {
    if k > 0 {
      assert b[k..] == b[1..][k - 1..];
      SubsequenceOfSuffix(a, b[1..], k - 1);
      SubsequenceOfTail(a, b);
    }
  }

  /** Every prefix is a subsequence. */
  lemma {:induction false} PrefixIsSubsequence<T>(b: seq<T>, k: nat)
    requires k <= |b|
    ensures IsSubsequence(b[..k], b)
    decreases |b|
  {
    if k > 0 {
      assert b[..k][1..] == b[1..][..k - 1];
      PrefixIsSubsequence(b[1..], k - 1);
    }
  }

  /** Every contiguous slice is a subsequence. */
  lemma SliceIsSubsequence<T>(b: seq<T>, i: nat, j: nat)
    requires i <= j <= |b|
    ensures IsSubsequence(b[i..j], b)
  {
    assert b[i..j] == b[i..][..j - i];
    PrefixIsSubsequence(b[i..], j - i);
    SubsequenceRefl(b[i..]);
    SubsequenceOfSuffix(b[i..], b, i);
    SubsequenceTrans(b[i..j], b[i..], b);
  }

  /** Every element kept by a subsequence occurs in the larger sequence. */
  lemma {:induction false} SubsequenceMembers<T>(a: seq<T>, b: seq<T>, x: T)
    requires IsSubsequence(a, b) && x in a
    ensures x in b
    decreases |b|
  {
    if a[0] == b[0] {
      if x != a[0] {
        SubsequenceMembers(a[1..], b[1..], x);
      }
    } else {
      SubsequenceMembers(a, b[1..], x);
    }
  }
}
