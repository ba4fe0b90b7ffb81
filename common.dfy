/** Values shared by every part of the model: optional values, the Python
    exceptions the modelled code raises or lets through, and two facts about
    sequences that Python dictionaries (which keep insertion order) rely on. */
module Common {

  datatype Option<+T> = None | Some(value: T)

  /** The exceptions that the modelled code raises, or that escape from the
      calls it makes. */
  datatype Exception =
    | AssertionError     // a failed `assert`
    | KeyError           // a dictionary lookup of a missing key
    | ValueError
    | TypeError
    | AttributeError     // a method called on the `None` of a failed regex match
    | FileNotFoundError  // `open` of a file that does not exist
    | ResidueError      // the structure engine asked for a residue the pose does not have

  /** A value, or the exception that was raised instead of returning one. */
  datatype Result<+T> = Ok(value: T) | Raise(exception: Exception)

  /** How a call that returns nothing ended. */
  datatype Outcome = Returned | Raised(exception: Exception)

  /** No element occurs twice (the keys of a dictionary). */
  predicate Distinct<T(==)>(s: seq<T>) {
    forall i, j :: 0 <= i < j < |s| ==> s[i] != s[j]
  }

  /** The elements of `s`, each once, in the order of their first occurrence:
      the key order of a dictionary filled from `s`. */
  function FirstSeen<T(==)>(s: seq<T>): (r: seq<T>)
    ensures Distinct(r)
    ensures forall k :: 0 <= k < |r| ==> r[k] in s
    ensures forall k :: 0 <= k < |s| ==> s[k] in r
  {
    if s == [] then []
    else
      var prefix := FirstSeen(s[..|s| - 1]);
      if s[|s| - 1] in prefix then prefix else prefix + [s[|s| - 1]]
  }
}
