/** Constants of the server (Constant.hpp, Error.hpp) and the few sequence operations
    that every component shares. A C++ char is modelled by a Dafny char. */
module Common {

  datatype Option<+T> = None | Some(value: T)

  const MSG_INDICATOR_GET := "GET"
  const MSG_INDICATOR_SET := "SET"
  const SESSION_ID_BYTES := 64
  const HEADER_BYTES := SESSION_ID_BYTES + 3
  const CLIENTS_MAX := 1024
  const MSGBUFFER_SIZE := 1024 * 8
  const PROCESS_MESSAGES_IN_MAX := CLIENTS_MAX * 4
  const PROCESS_PER_LOOP_COUNT := 256
  const TWO_TO_THE_16 := 0x1_0000
  const TWO_TO_THE_32 := 0x1_0000_0000

  function Min(a: nat, b: nat): nat { if a < b then a else b }

  function Reverse<T>(s: seq<T>): (r: seq<T>)
    ensures |r| == |s|
  {
    seq(|s|, i requires 0 <= i < |s| => s[|s| - 1 - i])
  }

  lemma ReverseConcat<T>(a: seq<T>, b: seq<T>)
    ensures Reverse(a + b) == Reverse(b) + Reverse(a)
  {
  }

  lemma ReverseReverse<T>(a: seq<T>)
    ensures Reverse(Reverse(a)) == a
  {
  }

  /** Taking the last element of s is taking the first one of its reverse. */
  lemma ReversePop<T>(s: seq<T>)
    requires s != []
    ensures Reverse(s) == [s[|s| - 1]] + Reverse(s[..|s| - 1])
  {
  }

  ghost predicate Distinct<T>(s: seq<T>) {
    forall i, j :: 0 <= i < j < |s| ==> s[i] != s[j]
  }

  ghost predicate Ascending(s: seq<nat>) {
    forall i, j :: 0 <= i < j < |s| ==> s[i] < s[j]
  }
}
