// What several of the models share.

module Wrappers {

  datatype Option<+T> = None | Some(value: T)

  datatype Result<+T, +E> = Ok(value: T) | Err(error: E)
}

module Sequences {

  function InsertAt<T>(s: seq<T>, i: nat, x: T): seq<T>
    requires i <= |s|
  {
    s[..i] + [x] + s[i..]
  }

  function RemoveAt<T>(s: seq<T>, i: nat): (less: seq<T>)
    requires i < |s|
    ensures |less| == |s| - 1
  {
    s[..i] + s[i + 1..]
  }
}

module Texts {

  predicate Digit(c: char) {
    '0' <= c <= '9'
  }

  lemma DigitsAre(c: char)
    ensures Digit(c) <==> c in "0123456789"
  {
    if Digit(c) {
      assert "0123456789"[(c - '0') as int] == c;
    }
  }

  // The place of the first c in s, or |s|.
  function Find(s: string, c: char): (k: nat)
    ensures k <= |s| && (forall j :: 0 <= j < k ==> s[j] != c) && (k < |s| ==> s[k] == c)
  {
    if s == "" || s[0] == c then 0 else 1 + Find(s[1..], c)
  }

  lemma FindIs(s: string, c: char, k: nat)
    requires k <= |s| && (forall j :: 0 <= j < k ==> s[j] != c) && (k < |s| ==> s[k] == c)
    ensures Find(s, c) == k
  {
  }
}
