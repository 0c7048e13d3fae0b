/** Vocabulary shared by the models: optional values, bytes, concatenation and substring search. */
module Common {

  datatype Option<+T> = None | Some(value: T)

  /** One octet, as the source's `u8`. */
  type byte = b: int | 0 <= b < 256

  const CR: byte := 13
  const LF: byte := 10
  const CRLF: seq<byte> := [CR, LF]
  const CRLFCRLF: seq<byte> := [CR, LF, CR, LF]
  const LFLF: seq<byte> := [LF, LF]

  /** Two bytes read as a big-endian number: `u16::from_be_bytes`. */
  function Be16(hi: byte, lo: byte): (n: nat)
    ensures n < 0x1_0000
  {
    hi as int * 256 + lo as int
  }

  /** The pieces of a list, joined in order. */
  function Concat<T>(parts: seq<seq<T>>): seq<T> {
    if parts == [] then [] else parts[0] + Concat(parts[1..])
  }

  lemma Assoc<T>(a: seq<T>, b: seq<T>, c: seq<T>)
    ensures a + b + c == a + (b + c)
  {
  }

  /** `pat` occurs in `s` at index `i`. */
  predicate At(pat: seq<byte>, s: seq<byte>, i: nat) {
    i + |pat| <= |s| && s[i..i + |pat|] == pat
  }

  /** The first index at or after `from` where `pat` occurs. */
  function FindFrom(pat: seq<byte>, s: seq<byte>, from: nat): (r: Option<nat>)
    ensures r.Some? ==> from <= r.value && At(pat, s, r.value)
    ensures r.Some? ==> forall j: nat :: from <= j < r.value ==> !At(pat, s, j)
    ensures r.None? ==> forall j: nat :: from <= j ==> !At(pat, s, j)
    decreases |s| - from
  {
    if from + |pat| > |s| then None
    else if At(pat, s, from) then Some(from)
    else if from < |s| then FindFrom(pat, s, from + 1)
    else None
  }

  /** The first occurrence of `pat` in `s`: the source's `windows(n).position(..)`. */
  function Find(pat: seq<byte>, s: seq<byte>): (r: Option<nat>)
    ensures r.Some? ==> At(pat, s, r.value)
    ensures r.Some? ==> forall j: nat :: j < r.value ==> !At(pat, s, j)
    ensures r.None? ==> forall j: nat :: !At(pat, s, j)
  {
    FindFrom(pat, s, 0)
  }

  lemma AtPrefix(pat: seq<byte>, s: seq<byte>, t: seq<byte>, i: nat)
    requires i + |pat| <= |s|
    ensures At(pat, s + t, i) <==> At(pat, s, i)
  {
    assert (s + t)[i..i + |pat|] == s[i..i + |pat|];
  }

  /**
   * More bytes at the end neither move nor hide an occurrence already seen, and a prefix sees it exactly when it
   * fits.
   */
  lemma FindInPrefix(pat: seq<byte>, s: seq<byte>, t: seq<byte>)
    ensures Find(pat, s).Some? ==> Find(pat, s + t) == Find(pat, s)
    ensures Find(pat, s + t).Some? && Find(pat, s + t).value + |pat| <= |s| ==> Find(pat, s) == Find(pat, s + t)
    ensures Find(pat, s + t).Some? && Find(pat, s + t).value + |pat| > |s| ==> Find(pat, s).None?
    ensures Find(pat, s + t).None? ==> Find(pat, s).None?
  {
    forall i: nat | i + |pat| <= |s|
      ensures At(pat, s + t, i) <==> At(pat, s, i)
    {
      AtPrefix(pat, s, t, i);
    }
    if Find(pat, s).Some? {
      var i := Find(pat, s).value;
      assert At(pat, s + t, i);
    }
    if Find(pat, s + t).Some? && Find(pat, s + t).value + |pat| <= |s| {
      assert At(pat, s, Find(pat, s + t).value);
    }
  }
}
