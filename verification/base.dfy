/** Failure-carrying datatypes shared by every module of the model.

    Python exceptions become `Err` values that name the exception class and
    the thing the message is about (a path, a sample, a workflow string).
 */
module Base {

  datatype Option<+T> = None | Some(value: T)

  /** The Python exception classes the modelled code raises. */
  datatype Kind =
    | ValueError
    | FileNotFoundError
    | NotADirectoryError
    | PermissionError
    | AssertionError
    | TypeError
    | AttributeError
    | NameError
    | CalledProcessError

  datatype Error = Error(kind: Kind, about: string)

  datatype Result<+T> = Ok(value: T) | Err(error: Error) {
    predicate IsFailure() { Err? }

    function PropagateFailure<U>(): Result<U>
      requires Err?
    {
      Err(error)
    }

    function Extract(): T
      requires Ok?
    {
      value
    }
  }

  function Raise<T>(kind: Kind, about: string): Result<T>
  {
    Err(Error(kind, about))
  }

  /** No element occurs twice. */
  predicate Distinct<T(==)>(s: seq<T>)
  {
    forall i, j :: 0 <= i < j < |s| ==> s[i] != s[j]
  }

  /** The keys of an association list, in order: the keys of a Python dict
      in iteration order. */
  function Keys<V>(m: seq<(string, V)>): (r: seq<string>)
    ensures |r| == |m|
    ensures forall i :: 0 <= i < |m| ==> r[i] == m[i].0
  {
    if |m| == 0 then [] else [m[0].0] + Keys(m[1..])
  }

  lemma DistinctCons<T>(x: T, s: seq<T>)
    requires x !in s && Distinct(s)
    ensures Distinct([x] + s)
  {
    var t := [x] + s;
    forall i, j | 0 <= i < j < |t| ensures t[i] != t[j] {
      assert t[j] == s[j - 1];
      if i > 0 {
        assert t[i] == s[i - 1];
      }
    }
  }

  lemma DistinctSnoc<T>(s: seq<T>, x: T)
    requires x !in s && Distinct(s)
    ensures Distinct(s + [x])
  {
    var t := s + [x];
    forall i, j | 0 <= i < j < |t| ensures t[i] != t[j] {
      assert t[i] == s[i];
      if j < |s| {
        assert t[j] == s[j];
      }
    }
  }
}
