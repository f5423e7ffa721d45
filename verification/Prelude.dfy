/** Datatypes and byte arithmetic that every component shares. */
module Prelude {

  datatype Option<+T> = None | Some(value: T)

  type byte = x: int | 0 <= x < 256

  type u16 = x: int | 0 <= x < 65536

  /** `u16::from_be_bytes`. */
  function Be16(hi: byte, lo: byte): (n: u16) {
    hi * 256 + lo
  }

  /** `u16::to_be_bytes`. */
  function PutBe16(n: u16): (b: seq<byte>)
    ensures |b| == 2 && Be16(b[0], b[1]) == n
  {
    [n / 256, n % 256]
  }

  lemma PutUndoesBe(hi: byte, lo: byte)
    ensures PutBe16(Be16(hi, lo)) == [hi, lo]
  {
  }

  /** A cast to 16 bits keeps what fits. */
  lemma Keeps16(n: nat)
    requires n < 65536
    ensures n % 65536 == n
  {
  }

  lemma SomeElement<T>(s: seq<T>)
    ensures s != [] ==> exists x :: x in s
  {
    if s != [] { assert s[0] in s; }
  }

  lemma Associates<T>(a: seq<T>, b: seq<T>, c: seq<T>)
    ensures a + (b + c) == a + b + c
  {
  }

  function Min(a: nat, b: nat): nat {
    if a < b then a else b
  }

  function Max(a: int, b: int): int {
    if a < b then b else a
  }
}
