/** `FixedString<max_length>` and the `_cstr` literal (task2/FixedString.hpp): a
    zero-initialised character buffer of fixed capacity holding a copy of the
    first `length` characters of its argument.

    A C++ `char` is one byte and the literal's length counts bytes. Each `char`
    here stands for one such byte, never for a multi-byte Unicode character. */
module FixedStrings {

  /** The NUL character every buffer slot starts as. */
  const Nul: char := 0 as char

  /** The capacity `operator""_cstr` instantiates. */
  const LiteralCapacity: nat := 256

  /** `impl_` is the buffer (its length is `max_length`), `len_` the stored length. */
  datatype FixedString = FixedString(impl: seq<char>, len: nat)

  /** The stored length fits the buffer. */
  predicate Valid(fs: FixedString) {
    fs.len <= |fs.impl|
  }

  /** The constructor: `length` characters of `s` are copied over a buffer of
      `maxLength` zero characters. Copying past the buffer, or reading past the
      argument, is undefined, so both are excluded. */
  method Construct(maxLength: nat, s: seq<char>, length: nat) returns (fs: FixedString)
    requires length <= |s| && length <= maxLength
    ensures Valid(fs) && |fs.impl| == maxLength && fs.len == length
    ensures fs.impl[..length] == s[..length]
    ensures forall i :: length <= i < maxLength ==> fs.impl[i] == Nul
  {
    var buffer := seq(maxLength, _ => Nul);
    var i := 0;
    while i < length
      invariant 0 <= i <= length
      invariant |buffer| == maxLength
      invariant forall k :: 0 <= k < i ==> buffer[k] == s[k]
      invariant forall k :: i <= k < maxLength ==> buffer[k] == Nul
    {
      buffer := buffer[i := s[i]];
      i := i + 1;
    }
    fs := FixedString(buffer, length);
  }

  /** `operator std::string_view`: the first `len_` characters of the buffer. */
  function View(fs: FixedString): (v: seq<char>)
    requires Valid(fs)
    ensures |v| == fs.len
    ensures forall i :: 0 <= i < fs.len ==> v[i] == fs.impl[i]
  {
    fs.impl[..fs.len]
  }

  /** Constructing then viewing gives back the first `length` characters. */
  method ConstructThenView(maxLength: nat, s: seq<char>, length: nat) returns (v: seq<char>)
    requires length <= |s| && length <= maxLength
    ensures v == s[..length]
  {
    var fs := Construct(maxLength, s, length);
    v := View(fs);
  }

  /** `operator""_cstr`: a capacity-256 string holding the literal. */
  method CStr(literal: seq<char>) returns (fs: FixedString)
    requires |literal| <= LiteralCapacity
    ensures Valid(fs) && |fs.impl| == LiteralCapacity
    ensures View(fs) == literal
    ensures forall i :: |literal| <= i < LiteralCapacity ==> fs.impl[i] == Nul
  {
    fs := Construct(LiteralCapacity, literal, |literal|);
    assert literal[..|literal|] == literal;
  }
}
