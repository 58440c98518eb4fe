/** Byte strings as nginx handles them (`u_char` buffers, `ngx_str_t`), with the
    two views of them the module relies on: ASCII case folding, used when a
    configuration value or a cookie name is matched, and the C-string view, used
    whenever a buffer is handed to code that reads up to the first NUL byte. */
module Octets {

  type byte = x: int | 0 <= x < 256

  datatype Option<+T> = None | Some(value: T)

  /** The bytes of an ASCII text literal. */
  function Ascii(s: string): (r: seq<byte>)
    requires forall i :: 0 <= i < |s| ==> s[i] as int < 128
    ensures |r| == |s|
    ensures forall i :: 0 <= i < |s| ==> r[i] == s[i] as int
  {
    seq(|s|, i requires 0 <= i < |s| => s[i] as int)
  }

  /** ASCII lower-casing of one byte; other bytes are left alone. */
  function Lower(b: byte): byte {
    if 'A' as int <= b <= 'Z' as int then b + 32 else b
  }

  /** Equality up to ASCII case, byte by byte (what `ngx_strcasecmp` decides
      for two strings of the same length). */
  predicate EqualsIgnoreCase(a: seq<byte>, b: seq<byte>) {
    |a| == |b| && forall i :: 0 <= i < |a| ==> Lower(a[i]) == Lower(b[i])
  }

  /** The string a C function sees when given `s`: the bytes before the first
      NUL, or all of `s` when it holds none. */
  function CStr(s: seq<byte>): (r: seq<byte>)
    ensures r <= s
    ensures 0 !in r
    ensures |r| < |s| ==> s[|r|] == 0
    ensures 0 !in s ==> r == s
  {
    if s == [] then []
    else if s[0] == 0 then []
    else [s[0]] + CStr(s[1..])
  }

  /** Writing a NUL after a buffer, as the module does before handing the
      buffer to a C-string function, does not change what that function sees. */
  lemma {:induction false} CStrTerminated(s: seq<byte>)
    ensures CStr(s + [0]) == CStr(s)
  {
    if s != [] {
      assert (s + [0])[1..] == s[1..] + [0];
      CStrTerminated(s[1..]);
    }
  }
}
