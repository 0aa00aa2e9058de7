/** Text as the C++ code sees it: byte strings that a NUL character cuts short. */
module Text {
  datatype Option<+T> = None | Some(value: T)

  /** `Overrun` stands for a scan that reads beyond the terminating NUL of its
      buffer, where the C++ program has no defined behaviour. */
  datatype Outcome<+T> = Done(value: T) | Overrun

  const NUL: char := '\0'
  /** Stands for an escaped quote inside normalised text. */
  const MARK: char := '\U{1}'
  /** Delimits a comment inside normalised text. */
  const COMMENT: char := '\U{5}'

  predicate NulFree(s: string) {
    forall i | 0 <= i < |s| :: s[i] != NUL
  }

  predicate Bytes(s: string) {
    forall i | 0 <= i < |s| :: s[i] as int < 256
  }

  /** What a `const char *` built from `s` denotes: everything before the first NUL. */
  function CStr(s: string): (r: string)
    ensures r <= s && NulFree(r)
    ensures r == s <==> NulFree(s)
  {
    if s == "" || s[0] == NUL then "" else [s[0]] + CStr(s[1..])
  }

  /** At the end of a C string, either the terminator or an embedded NUL. */
  predicate AtEnd(s: string) {
    s == "" || s[0] == NUL
  }

  /** The character at index `i` of a buffer, counting its terminating NUL. */
  function At(s: string, i: nat): char
    requires i <= |s|
  {
    if i < |s| then s[i] else NUL
  }

  function Prepend(s: string, r: Outcome<string>): Outcome<string> {
    match r
    case Overrun => Overrun
    case Done(t) => Done(s + t)
  }

  lemma PrependNothing(r: Outcome<string>)
    ensures Prepend("", r) == r
  {
    if r.Done? {
      assert "" + r.value == r.value;
    }
  }

  lemma PrependTwice(a: string, b: string, r: Outcome<string>)
    ensures Prepend(a, Prepend(b, r)) == Prepend(a + b, r)
  {
    if r.Done? {
      assert a + (b + r.value) == a + b + r.value;
    }
  }
}
