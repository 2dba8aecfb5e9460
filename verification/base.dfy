/** Shared vocabulary: the .NET exceptions the program can raise, an Option and a
    Result type to carry them, and the list operations (`IndexOf`, `Insert`,
    `RemoveAt`, `Move`) that the program calls on its collections. */
module Base {

  /** The exception kinds that escape from the modelled code. */
  datatype Fault =
    | ArgumentNull          // System.ArgumentNullException
    | ArgumentOutOfRange    // System.ArgumentOutOfRangeException (bad list index)
    | Argument              // System.ArgumentException
    | NullReference         // System.NullReferenceException
    | Xml                   // System.Xml.XmlException (malformed document)
    | Deserialization       // an exception raised inside XmlSerializer, re-thrown
    | InvalidOperation      // System.InvalidOperationException (Last() of an empty list)
    | Generic               // a plain System.Exception thrown by the program itself

  datatype Option<+T> = None | Some(value: T)

  /** The outcome of an operation that may throw. */
  datatype Result<+T> = Ok(value: T) | Err(fault: Fault) {
    predicate IsFailure() { Err? }
    function PropagateFailure<U>(): Result<U>
      requires Err?
    {
      Err(fault)
    }
    function Extract(): T
      requires Ok?
    {
      value
    }
  }

  /** List<T>.IndexOf: the first index holding a value equal to `x`, or -1. */
  function IndexOf<T(==)>(s: seq<T>, x: T): (i: int)
    ensures -1 <= i < |s|
    ensures 0 <= i ==> s[i] == x && x !in s[..i]
    ensures i == -1 <==> x !in s
  {
    if |s| == 0 then -1
    else if s[0] == x then 0
    else
      var j := IndexOf(s[1..], x);
      if j < 0 then -1
      else assert s[..j+1] == [s[0]] + s[1..][..j]; j + 1
  }

  /** List<T>.Insert(index, x); the index must lie in [0, |s|]. */
  function Insert<T>(s: seq<T>, index: int, x: T): (r: Result<seq<T>>)
    ensures r.Ok? <==> 0 <= index <= |s|
    ensures r.Ok? ==> |r.value| == |s| + 1 && r.value[index] == x
                      && r.value[..index] == s[..index] && r.value[index+1..] == s[index..]
  {
    if 0 <= index <= |s| then Ok(s[..index] + [x] + s[index..]) else Err(ArgumentOutOfRange)
  }

  /** List<T>.RemoveAt(index); the index must lie in [0, |s|). */
  function RemoveAt<T>(s: seq<T>, index: int): (r: Result<seq<T>>)
    ensures r.Ok? <==> 0 <= index < |s|
    ensures r.Ok? ==> |r.value| + 1 == |s| && r.value[..index] == s[..index]
                      && r.value[index..] == s[index+1..]
  {
    if 0 <= index < |s| then Ok(s[..index] + s[index+1..]) else Err(ArgumentOutOfRange)
  }

  /** The list indexer setter `s[index] = x`. */
  function SetAt<T>(s: seq<T>, index: int, x: T): (r: Result<seq<T>>)
    ensures r.Ok? <==> 0 <= index < |s|
    ensures r.Ok? ==> |r.value| == |s| && r.value[index] == x
                      && forall k :: 0 <= k < |s| && k != index ==> r.value[k] == s[k]
  {
    if 0 <= index < |s| then Ok(s[index := x]) else Err(ArgumentOutOfRange)
  }

  /** ObservableCollection<T>.Move(from, to): take the item at `from` out of the
      collection and insert it again so that it ends up at index `to`. */
  function Move<T>(s: seq<T>, from: int, to: int): (r: seq<T>)
    requires 0 <= from < |s| && 0 <= to < |s|
    ensures |r| == |s|
    ensures r[to] == s[from]
    ensures r[..to] + r[to+1..] == s[..from] + s[from+1..]
  {
    var rest := s[..from] + s[from+1..];
    assert |rest| == |s| - 1;
    rest[..to] + [s[from]] + rest[to..]
  }

  /** The concatenation of a sequence of sequences, in order. */
  function Concat<T>(ss: seq<seq<T>>): seq<T>
  {
    if |ss| == 0 then [] else ss[0] + Concat(ss[1..])
  }

  /** The reverse of a sequence, as a reference definition. */
  function Reverse<T>(s: seq<T>): (r: seq<T>)
    ensures |r| == |s|
    ensures forall i :: 0 <= i < |s| ==> r[i] == s[|s| - 1 - i]
  {
    if |s| == 0 then [] else Reverse(s[1..]) + [s[0]]
  }

  /** Reversal keeps every element with its multiplicity. */
  lemma {:induction false} ReversePermutes<T>(s: seq<T>)
    ensures multiset(Reverse(s)) == multiset(s)
  {
    if |s| > 0 {
      ReversePermutes(s[1..]);
      assert s == [s[0]] + s[1..];
    }
  }

  /** Reversing twice gives the original sequence back. */
  lemma ReverseInvolution<T>(s: seq<T>)
    ensures Reverse(Reverse(s)) == s
  {
    var r := Reverse(Reverse(s));
    assert forall i :: 0 <= i < |s| ==> r[i] == s[i];
  }
}
