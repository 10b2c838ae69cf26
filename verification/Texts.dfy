/** Splitting a text at a separator, and hexadecimal digits. */
module Texts {
  import opened Wrappers

  type Byte = n: nat | n < 256

  /** `split` of Python and JavaScript with a separator of one element. */
  function Split<T(==)>(s: seq<T>, at: T): (parts: seq<seq<T>>)
    ensures parts != []
  {
    if s == [] then [[]]
    else if s[0] == at then [[]] + Split(s[1..], at)
    else
      var rest := Split(s[1..], at);
      [[s[0]] + rest[0]] + rest[1..]
  }

  lemma {:induction false} SplitAt<T>(a: seq<T>, at: T, b: seq<T>)
    ensures Split(a + [at] + b, at) == Split(a, at) + Split(b, at)
  {
    var s := a + [at] + b;
    if a == [] {
      assert s == [at] + b && s[1..] == b;
    } else {
      assert s[0] == a[0] && s[1..] == a[1..] + [at] + b;
      SplitAt(a[1..], at, b);
    }
  }

  lemma {:induction false} SplitPlain<T>(part: seq<T>, at: T)
    requires at !in part
    ensures Split(part, at) == [part]
  {
    if part != [] {
      SplitPlain(part[1..], at);
      assert [part[0]] + part[1..] == part;
    }
  }

  /** A hexadecimal digit; `ten` is the digit ten in the wanted case. */
  function HexDigit(d: nat, ten: char): (c: char)
    requires d < 16 && (ten == 'a' || ten == 'A')
    ensures HexValue(c) == Some(d) && c as int < 128
  {
    if d < 10 then ('0' as int + d) as char else (ten as int + d - 10) as char
  }

  function HexValue(c: char): Option<nat> {
    if '0' <= c <= '9' then Some(c as int - '0' as int)
    else if 'a' <= c <= 'f' then Some(c as int - 'a' as int + 10)
    else if 'A' <= c <= 'F' then Some(c as int - 'A' as int + 10)
    else None
  }
}
