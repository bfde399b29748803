/**
 * `encode` and `decode` of src/lib.rs: percent-encoding of a byte string under
 * a `Bitmask` of safe bytes, and the cursor loop that undoes it.
 *
 * Both sides are byte strings: the encoder's output is ASCII, so the Rust
 * `String` it returns and the `&str` the decoder reads are their bytes here.
 */
module Codec {
  import opened ByteStrings
  import opened Bitmasks

  /** `b' '` */
  const SPACE: u8 := 0x20

  /** `HEX`, `b"0123456789ABCDEF"`: the upper-case digits the encoder writes. */
  const HEX: seq<u8> := [0x30, 0x31, 0x32, 0x33, 0x34, 0x35, 0x36, 0x37, 0x38, 0x39, 0x41, 0x42, 0x43, 0x44, 0x45, 0x46]

  // Hexadecimal digits.

  /**
   * `char::from(b).to_digit(16)`: the value of an ASCII hexadecimal digit of
   * either case, and nothing for any other byte.
   */
  function HexValue(b: u8): (r: Option<u8>)
    ensures r.Some? <==> (0x30 <= b <= 0x39 || 0x41 <= b <= 0x46 || 0x61 <= b <= 0x66)
    ensures r.Some? ==> r.value < 16
  {
    if 0x30 <= b <= 0x39 then Some(b - 0x30)
    else if 0x41 <= b <= 0x46 then Some(b - 0x41 + 10)
    else if 0x61 <= b <= 0x66 then Some(b - 0x61 + 10)
    else None
  }

  predicate IsHexDigit(b: u8)
  {
    HexValue(b).Some?
  }

  /** `(hi * 16 + lo) as u8`: the byte an escape `%hl` stands for; never truncated, as both digits are below 16. */
  function Unhex(hi: u8, lo: u8): u8
    requires IsHexDigit(hi) && IsHexDigit(lo)
  {
    HexValue(hi).value * 16 + HexValue(lo).value
  }

  /** Reading back a digit of `HEX` gives its position: `to_digit(16)` inverts `HEX[_]`. */
  lemma HexValueOfHex(k: u8)
    requires k < 16
    ensures HexValue(HEX[k]) == Some(k)
  {
    if k < 10 {
      assert HEX[k] == 0x30 + k;
    } else {
      assert HEX[k] == 0x41 + (k - 10);
    }
  }

  /** `to_digit(16)` does not care about case: `a`..`f` read as `A`..`F`. */
  lemma HexValueCaseInsensitive(b: u8)
    requires 0x61 <= b <= 0x66
    ensures HexValue(b) == HexValue(b - 0x20) && HexValue(b).Some?
  {
  }

  /** The escape the encoder writes for a byte decodes back to that byte. */
  lemma UnhexOfEscape(ch: u8)
    ensures IsHexDigit(HEX[ch / 16]) && IsHexDigit(HEX[ch % 16])
    ensures Unhex(HEX[ch / 16], HEX[ch % 16]) == ch
  {
    HexValueOfHex(ch / 16);
    HexValueOfHex(ch % 16);
  }

  // The encoder.

  /**
   * What `encode` pushes for one input byte: `+` for a space (tested before the
   * mask), the byte itself for a member of the mask, and otherwise `%` with the
   * high nibble `ch >> 4` and the low nibble `ch & 0xF` in upper-case hex,
   * both digits taken from `HEX`.
   */
  function EncodeByte(ch: u8, mask: Bitmask): (r: seq<u8>)
    ensures |r| == 1 || |r| == 3
    ensures |r| == 3 <==> ch != SPACE && !Contains(mask, ch)
    ensures |r| == 3 ==> r[0] == PERCENT && IsHexDigit(r[1]) && IsHexDigit(r[2]) && Unhex(r[1], r[2]) == ch
    ensures |r| == 3 ==> r[1] in HEX && r[2] in HEX
    ensures forall k :: 0 <= k < |r| ==> 33 <= r[k] <= 127
  {
    if ch == SPACE then [PLUS]
    else if Contains(mask, ch) then [ch]
    else
      UnhexOfEscape(ch);
      [PERCENT, HEX[ch / 16], HEX[ch % 16]]
  }

  /**
   * The string `encode(src, mask)` returns: the encodings of the bytes of
   * `src`, in order. It is between one and three times as long as `src`, and
   * every byte of it is a printable, non-space ASCII byte or DEL (33..=127).
   */
  function Encoded(src: seq<u8>, mask: Bitmask): (r: seq<u8>)
    ensures |src| <= |r| <= 3 * |src|
    ensures forall k :: 0 <= k < |r| ==> 33 <= r[k] <= 127
  {
    if |src| == 0 then []
    else
      EncodeByte(src[0], mask) + Encoded(src[1..], mask)
  }

  /** Encoding works byte by byte: the encoding of a concatenation is the concatenation of the encodings. */
  lemma {:induction false} EncodedAppend(a: seq<u8>, b: seq<u8>, mask: Bitmask)
    ensures Encoded(a + b, mask) == Encoded(a, mask) + Encoded(b, mask)
  {
    if |a| > 0 {
      assert (a + b)[1..] == a[1..] + b;
      EncodedAppend(a[1..], b, mask);
    } else {
      assert a + b == b;
    }
  }

  /** `encode`: the `for` loop that pushes the encoding of each byte onto `out`. */
  method Encode(src: seq<u8>, mask: Bitmask) returns (out: seq<u8>)
    ensures out == Encoded(src, mask)
  {
    out := [];
    for i := 0 to |src|
      invariant out == Encoded(src[..i], mask)
    {
      var ch := src[i];
      if ch == SPACE {
        out := out + [PLUS];
      } else if Contains(mask, ch) {
        out := out + [ch];
      } else {
        out := out + [PERCENT, HEX[ch / 16], HEX[ch % 16]];
      }
      assert src[..i + 1] == src[..i] + [ch];
      EncodedAppend(src[..i], [ch], mask);
    }
    assert src[..|src|] == src;
  }

  /** `src` with every space replaced by `+`. */
  function SpacesToPlus(src: seq<u8>): (r: seq<u8>)
    ensures |r| == |src|
  {
    if |src| == 0 then []
    else [if src[0] == SPACE then PLUS else src[0]] + SpacesToPlus(src[1..])
  }

  /**
   * When every byte is a space or safe, encoding only turns spaces into `+`;
   * without spaces it returns its input.
   */
  lemma {:induction false} EncodedAllSafe(src: seq<u8>, mask: Bitmask)
    requires forall k :: 0 <= k < |src| ==> src[k] == SPACE || Contains(mask, src[k])
    ensures Encoded(src, mask) == SpacesToPlus(src)
    ensures SPACE !in src ==> Encoded(src, mask) == src
  {
    if |src| > 0 {
      EncodedAllSafe(src[1..], mask);
      assert [src[0]] + src[1..] == src;
    }
  }

  // The decoder, as written.

  /** `p` pushed in front of what the rest of the loop produces; a panic stays a panic. */
  function Prefixed(p: seq<u8>, r: Option<seq<u8>>): Option<seq<u8>>
  {
    match r
    case None => None
    case Some(rest) => Some(p + rest)
  }

  lemma PrefixedTwice(p: seq<u8>, q: seq<u8>, r: Option<seq<u8>>)
    ensures Prefixed(p, Prefixed(q, r)) == Prefixed(p + q, r)
    ensures Prefixed([], r) == r
  {
    if r.Some? {
      assert p + (q + r.value) == (p + q) + r.value;
      assert [] + r.value == r.value;
    }
  }

  /**
   * What `decode(s)` returns, or `None` where it panics. After taking the first
   * byte `i`: `+` gives a space; a byte other than `%` is copied; for `%`:
   *  - nothing left: `&slice[1..]` on the empty slice panics;
   *  - one byte left: `%` is pushed and that byte is skipped;
   *  - two hex digits next: the byte they spell, three bytes consumed;
   *  - otherwise: `%` is pushed and the byte after it is skipped.
   * The result is never longer than the input.
   */
  function Decoded(s: seq<u8>): (r: Option<seq<u8>>)
    ensures r.Some? ==> |r.value| <= |s|
    decreases |s|
  {
    if |s| == 0 then Some([])
    else if s[0] == PLUS then Prefixed([SPACE], Decoded(s[1..]))
    else if s[0] != PERCENT then Prefixed([s[0]], Decoded(s[1..]))
    else if |s| == 1 then None
    else if |s| == 2 then Prefixed([PERCENT], Decoded(s[2..]))
    else if IsHexDigit(s[1]) && IsHexDigit(s[2]) then Prefixed([Unhex(s[1], s[2])], Decoded(s[3..]))
    else Prefixed([PERCENT], Decoded(s[2..]))
  }

  /** `decode`: the `while` loop that moves a cursor over `src` and pushes onto `out`. */
  method Decode(src: seq<u8>) returns (r: Option<seq<u8>>)
    ensures r == Decoded(src)
  {
    var out: seq<u8> := [];
    var pos := 0;
    assert src[pos..] == src;
    PrefixedTwice([], [], Decoded(src));
    while pos < |src|
      invariant 0 <= pos <= |src|
      invariant Prefixed(out, Decoded(src[pos..])) == Decoded(src)
    {
      ghost var before := out;
      ghost var at := src[pos..];
      var i := src[pos];
      pos := pos + 1;
      assert at[1..] == src[pos..];
      if i == PLUS {
        out := out + [SPACE];
        PrefixedTwice(before, [SPACE], Decoded(src[pos..]));
      } else if i != PERCENT {
        out := out + [i];
        PrefixedTwice(before, [i], Decoded(src[pos..]));
      } else if |src| - pos < 2 {
        if pos == |src| {
          // `slice = &slice[1..]` with `slice` empty: the panic.
          return None;
        }
        out := out + [i];
        pos := pos + 1;
        assert at[2..] == src[pos..];
        PrefixedTwice(before, [i], Decoded(src[pos..]));
      } else {
        var hi, lo := HexValue(src[pos]), HexValue(src[pos + 1]);
        if hi.None? || lo.None? {
          out := out + [i];
          pos := pos + 1;
          assert at[2..] == src[pos..];
          PrefixedTwice(before, [i], Decoded(src[pos..]));
        } else {
          out := out + [hi.value * 16 + lo.value];
          pos := pos + 2;
          assert at[3..] == src[pos..];
          PrefixedTwice(before, [Unhex(at[1], at[2])], Decoded(src[pos..]));
        }
      }
    }
    assert src[pos..] == [];
    assert out + [] == out;
    return Some(out);
  }

  // The round trip.

  /** The masks under which encoding can be undone: neither `+` nor `%` is passed through unescaped. */
  predicate Reversible(mask: Bitmask)
  {
    !Contains(mask, PLUS) && !Contains(mask, PERCENT)
  }

  /** An escape `%XY` written by the encoder decodes to its byte, whatever follows it. */
  lemma DecodeEscape(ch: u8, rest: seq<u8>)
    ensures Decoded([PERCENT, HEX[ch / 16], HEX[ch % 16]] + rest) == Prefixed([ch], Decoded(rest))
  {
    var e := [PERCENT, HEX[ch / 16], HEX[ch % 16]] + rest;
    UnhexOfEscape(ch);
    assert e[1] == HEX[ch / 16] && e[2] == HEX[ch % 16];
    assert e[3..] == rest;
  }

  /** Decoding the encoding of one byte, followed by anything, gives that byte first. */
  lemma DecodeEncodeByte(ch: u8, mask: Bitmask, rest: seq<u8>)
    requires Reversible(mask)
    ensures Decoded(EncodeByte(ch, mask) + rest) == Prefixed([ch], Decoded(rest))
  {
    var e := EncodeByte(ch, mask) + rest;
    if ch == SPACE {
      assert e[1..] == rest;
    } else if Contains(mask, ch) {
      assert e[1..] == rest;
    } else {
      DecodeEscape(ch, rest);
    }
  }

  /**
   * Under a mask that holds neither `+` nor `%`, `decode` undoes `encode`, and
   * on the encoder's output it never reaches the panic.
   */
  lemma {:induction false} RoundTrip(v: seq<u8>, mask: Bitmask)
    requires Reversible(mask)
    ensures Decoded(Encoded(v, mask)) == Some(v)
  {
    if |v| == 0 {
    } else {
      RoundTrip(v[1..], mask);
      DecodeEncodeByte(v[0], mask, Encoded(v[1..], mask));
      assert [v[0]] + v[1..] == v;
    }
  }

  /** Under such a mask no two inputs have the same encoding. */
  lemma EncodeInjective(a: seq<u8>, b: seq<u8>, mask: Bitmask)
    requires Reversible(mask)
    requires Encoded(a, mask) == Encoded(b, mask)
    ensures a == b
  {
    RoundTrip(a, mask);
    RoundTrip(b, mask);
  }

  /** `URI_COMPONENT` and `PATH` hold neither `+` nor `%`, so their encodings round-trip. */
  lemma PresetRoundTrip(v: seq<u8>, mask: Bitmask)
    requires mask == URI_COMPONENT || mask == PATH
    ensures Decoded(Encoded(v, mask)) == Some(v)
  {
    PathIsUriComponent();
    UriComponentLacks(PLUS);
    UriComponentLacks(PERCENT);
    RoundTrip(v, mask);
  }

  /** A mask that holds `+` passes it through, and `decode` reads it back as a space. */
  lemma PlusBreaksRoundTrip(mask: Bitmask)
    requires Contains(mask, PLUS)
    ensures Encoded([PLUS], mask) == [PLUS]
    ensures Decoded(Encoded([PLUS], mask)) == Some([SPACE])
  {
    assert Encoded([PLUS], mask) == [PLUS] + Encoded([], mask);
    assert [PLUS][1..] == [];
    assert [SPACE] + [] == [SPACE];
  }

  /** So `URI` and `RFC3986` do not round-trip: `"+"` encodes to itself and decodes to `" "`. */
  lemma PresetBreaksRoundTrip(mask: Bitmask)
    requires mask == URI || mask == RFC3986
    ensures Decoded(Encoded([PLUS], mask)) != Some([PLUS])
  {
    UriHolds(PLUS);
    Rfc3986Holds(PLUS);
    PlusBreaksRoundTrip(mask);
  }

  // The grammar of encoded text.

  /** `(byte other than '%' | '%' HEXDIG HEXDIG)*`: text in which every `%` starts an escape. */
  predicate WellFormed(s: seq<u8>)
    decreases |s|
  {
    if |s| == 0 then true
    else if s[0] != PERCENT then WellFormed(s[1..])
    else |s| >= 3 && IsHexDigit(s[1]) && IsHexDigit(s[2]) && WellFormed(s[3..])
  }

  /** Under a mask without `%`, the encoder writes well-formed text. */
  lemma {:induction false} EncodedWellFormed(v: seq<u8>, mask: Bitmask)
    requires !Contains(mask, PERCENT)
    ensures WellFormed(Encoded(v, mask))
  {
    if |v| > 0 {
      EncodedWellFormed(v[1..], mask);
      var rest := Encoded(v[1..], mask);
      var e := EncodeByte(v[0], mask) + rest;
      if v[0] == SPACE || Contains(mask, v[0]) {
        assert e[1..] == rest;
      } else {
        UnhexOfEscape(v[0]);
        assert e[3..] == rest;
      }
    }
  }

  // The decoder as evidently intended.

  /**
   * `decode` with the lenient fallback its skipped bytes point to: a `%` that
   * does not start an escape is pushed as it is and only the `%` is consumed,
   * so the bytes after it are read again. It never fails, and the result is
   * never longer than the input.
   */
  function DecodedLenient(s: seq<u8>): (r: seq<u8>)
    ensures |r| <= |s|
    decreases |s|
  {
    if |s| == 0 then []
    else if s[0] == PLUS then [SPACE] + DecodedLenient(s[1..])
    else if s[0] != PERCENT then [s[0]] + DecodedLenient(s[1..])
    else if |s| >= 3 && IsHexDigit(s[1]) && IsHexDigit(s[2]) then [Unhex(s[1], s[2])] + DecodedLenient(s[3..])
    else [PERCENT] + DecodedLenient(s[1..])
  }

  /** Text in which no `+` appears and no `%` is followed by two hex digits. */
  predicate NoEscapes(s: seq<u8>)
  {
    forall k :: 0 <= k < |s| ==>
      s[k] != PLUS &&
      (s[k] == PERCENT && k + 2 < |s| ==> !(IsHexDigit(s[k + 1]) && IsHexDigit(s[k + 2])))
  }

  /** The lenient decoder keeps every byte of text without escapes: malformed `%` sequences survive whole. */
  lemma {:induction false} LenientKeepsMalformed(s: seq<u8>)
    requires NoEscapes(s)
    ensures DecodedLenient(s) == s
  {
    if |s| > 0 {
      assert NoEscapes(s[1..]) by {
        forall k | 0 <= k < |s| - 1
          ensures s[1..][k] != PLUS
          ensures s[1..][k] == PERCENT && k + 2 < |s| - 1 ==>
                  !(IsHexDigit(s[1..][k + 1]) && IsHexDigit(s[1..][k + 2]))
        {
          assert s[1..][k] == s[k + 1];
        }
      }
      LenientKeepsMalformed(s[1..]);
      assert [s[0]] + s[1..] == s;
    }
  }

  /** On well-formed text the decoder as written takes no fallback and agrees with the lenient one. */
  lemma {:induction false} DecodersAgreeOnWellFormed(s: seq<u8>)
    requires WellFormed(s)
    ensures Decoded(s) == Some(DecodedLenient(s))
    decreases |s|
  {
    if |s| > 0 {
      if s[0] != PERCENT {
        DecodersAgreeOnWellFormed(s[1..]);
      } else {
        DecodersAgreeOnWellFormed(s[3..]);
      }
    }
  }

  /** The lenient decoder undoes the encoder under the same masks as the decoder as written. */
  lemma LenientRoundTrip(v: seq<u8>, mask: Bitmask)
    requires Reversible(mask)
    ensures DecodedLenient(Encoded(v, mask)) == v
  {
    EncodedWellFormed(v, mask);
    DecodersAgreeOnWellFormed(Encoded(v, mask));
    RoundTrip(v, mask);
  }

  // Examples from the crate's documentation, and where the decoder as written
  // loses bytes.

  /**
   * Every byte of `v` written as an escape `%XY`: the form of the example in
   * `decode`'s documentation, `"%54%6F%20..."` for `"To ..."`.
   */
  function Escaped(v: seq<u8>): (r: seq<u8>)
    ensures |r| == 3 * |v|
  {
    if |v| == 0 then [] else [PERCENT, HEX[v[0] / 16], HEX[v[0] % 16]] + Escaped(v[1..])
  }

  /** Text made only of upper-case escapes decodes to the bytes they spell. */
  lemma {:induction false} DecodeEscaped(v: seq<u8>)
    ensures Decoded(Escaped(v)) == Some(v)
  {
    if |v| > 0 {
      DecodeEscaped(v[1..]);
      DecodeEscape(v[0], Escaped(v[1..]));
      assert [v[0]] + v[1..] == v;
    }
  }

  /** Text without `+` and `%`. */
  predicate Plain(s: seq<u8>)
  {
    forall k :: 0 <= k < |s| ==> s[k] != PLUS && s[k] != PERCENT
  }

  /** `decode` copies text without `+` and `%` and carries on with what follows. */
  lemma {:induction false} DecodePlainPrefix(a: seq<u8>, b: seq<u8>)
    requires Plain(a)
    ensures Decoded(a + b) == Prefixed(a, Decoded(b))
  {
    if |a| == 0 {
      assert a + b == b;
      PrefixedTwice([], [], Decoded(b));
    } else {
      assert (a + b)[1..] == a[1..] + b;
      DecodePlainPrefix(a[1..], b);
      PrefixedTwice([a[0]], a[1..], Decoded(b));
      assert [a[0]] + a[1..] == a;
    }
  }

  /** As written, `"%GG"` decodes to `"%G"`: the `G` after `%` is dropped. */
  lemma PercentPairDropsByte()
    ensures Decoded([0x25, 0x47, 0x47]) == Some([0x25, 0x47])
    ensures DecodedLenient([0x25, 0x47, 0x47]) == [0x25, 0x47, 0x47]
  {
    var g: seq<u8> := [0x47];
    var gg: seq<u8> := [0x25, 0x47, 0x47];
    DecodePlainPrefix(g, []);
    assert g + [] == g && gg[2..] == g;
    assert [PERCENT] + g == [0x25, 0x47];
    LenientKeepsMalformed(gg);
  }

  /** As written, `"100%2"` decodes to `"100%"`: the one byte after `%` is dropped. */
  lemma PercentOneByteDropsIt()
    ensures Decoded([0x31, 0x30, 0x30, 0x25, 0x32]) == Some([0x31, 0x30, 0x30, 0x25])
    ensures DecodedLenient([0x31, 0x30, 0x30, 0x25, 0x32]) == [0x31, 0x30, 0x30, 0x25, 0x32]
  {
    var hundred: seq<u8> := [0x31, 0x30, 0x30];
    var two: seq<u8> := [0x25, 0x32];
    assert two[2..] == [];
    assert Decoded(two) == Some([PERCENT] + []);
    DecodePlainPrefix(hundred, two);
    assert hundred + two == [0x31, 0x30, 0x30, 0x25, 0x32];
    assert hundred + ([PERCENT] + []) == [0x31, 0x30, 0x30, 0x25];
    LenientKeepsMalformed(hundred + two);
  }

  /** As written, `"100%"` panics. */
  lemma TrailingPercentPanics()
    ensures Decoded([0x31, 0x30, 0x30, 0x25]) == None
    ensures DecodedLenient([0x31, 0x30, 0x30, 0x25]) == [0x31, 0x30, 0x30, 0x25]
  {
    var hundred: seq<u8> := [0x31, 0x30, 0x30];
    DecodePlainPrefix(hundred, [PERCENT]);
    assert hundred + [PERCENT] == [0x31, 0x30, 0x30, 0x25];
    LenientKeepsMalformed(hundred + [PERCENT]);
  }

  /** As written, `decode` panics on plain text followed by a single `%`. */
  lemma PlainThenPercentPanics(a: seq<u8>)
    requires Plain(a)
    ensures Decoded(a + [PERCENT]) == None
  {
    DecodePlainPrefix(a, [PERCENT]);
  }

  /**
   * A final `%` that is the byte skipped after another `%` does not panic:
   * `"a%%"` decodes to `"a%"`.
   */
  lemma SkippedFinalPercent()
    ensures Decoded([0x61, 0x25, 0x25]) == Some([0x61, 0x25])
  {
    var a: seq<u8> := [0x61];
    var pp: seq<u8> := [0x25, 0x25];
    assert pp[2..] == [];
    assert Decoded(pp) == Some([PERCENT] + []);
    DecodePlainPrefix(a, pp);
    assert a + pp == [0x61, 0x25, 0x25];
    assert a + ([PERCENT] + []) == [0x61, 0x25];
  }

  /**
   * The decoder as written: `"%GG"` gives `"%G"`, `"100%2"` gives `"100%"`, and
   * `"100%"` panics; the lenient decoder returns each of them unchanged.
   */
  lemma MalformedEscapes()
    ensures Decoded([0x25, 0x47, 0x47]) == Some([0x25, 0x47])
    ensures Decoded([0x31, 0x30, 0x30, 0x25, 0x32]) == Some([0x31, 0x30, 0x30, 0x25])
    ensures Decoded([0x31, 0x30, 0x30, 0x25]) == None
    ensures DecodedLenient([0x25, 0x47, 0x47]) == [0x25, 0x47, 0x47]
    ensures DecodedLenient([0x31, 0x30, 0x30, 0x25, 0x32]) == [0x31, 0x30, 0x30, 0x25, 0x32]
    ensures DecodedLenient([0x31, 0x30, 0x30, 0x25]) == [0x31, 0x30, 0x30, 0x25]
  {
    PercentPairDropsByte();
    PercentOneByteDropsIt();
    TrailingPercentPanics();
  }

  /** The decoder as written panics only on a `%` that it reads as the last byte. */
  lemma {:induction false} PanicNeedsTrailingPercent(s: seq<u8>)
    requires Decoded(s).None?
    ensures |s| > 0 && s[|s| - 1] == PERCENT
    decreases |s|
  {
    if s[0] == PLUS || s[0] != PERCENT {
      PanicNeedsTrailingPercent(s[1..]);
    } else if |s| == 1 {
    } else if |s| >= 3 && IsHexDigit(s[1]) && IsHexDigit(s[2]) {
      PanicNeedsTrailingPercent(s[3..]);
    } else {
      PanicNeedsTrailingPercent(s[2..]);
    }
  }
}
