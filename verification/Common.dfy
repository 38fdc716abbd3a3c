/** Definitions that several components share. */
module Common {

  type Byte = b: int | 0 <= b < 256

  datatype Option<+T> = None | Some(value: T)

  ghost predicate NoRepeats<T>(s: seq<T>) {
    forall i, j :: 0 <= i < j < |s| ==> s[i] != s[j]
  }

  /** The elements of r are found in s in the same order. */
  ghost predicate InOrderOf<T>(r: seq<T>, s: seq<T>) {
    exists at: seq<nat> :: Embeds(at, r, s)
  }

  ghost predicate Embeds<T>(at: seq<nat>, r: seq<T>, s: seq<T>) {
    && |at| == |r|
    && (forall i, j :: 0 <= i < j < |at| ==> at[i] < at[j])
    && (forall i :: 0 <= i < |at| ==> at[i] < |s| && s[at[i]] == r[i])
  }
}
