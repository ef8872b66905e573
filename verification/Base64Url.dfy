// Unpadded base64url (RFC 4648 section 5, as compact JWTs use it, RFC 7515
// section 2) and the lenient decoder of Python's base64 module, which skips
// foreign characters and stops at enough padding.
module Base64Url {
  import opened Basics

  type Byte = b: nat | b < 256

  // ---------- sextets ----------

  function Char(v: nat): char
    requires v < 64
  {
    if v < 26 then 'A' + v as char
    else if v < 52 then 'a' + (v - 26) as char
    else if v < 62 then '0' + (v - 52) as char
    else if v == 62 then '-' else '_'
  }

  // The URL-safe decoder also accepts the standard alphabet's '+' and '/'.
  function Sextet(c: char): Option<nat> {
    if 'A' <= c <= 'Z' then Some(c as int - 'A' as int)
    else if 'a' <= c <= 'z' then Some(c as int - 'a' as int + 26)
    else if '0' <= c <= '9' then Some(c as int - '0' as int + 52)
    else if c == '-' || c == '+' then Some(62)
    else if c == '_' || c == '/' then Some(63)
    else None
  }

  lemma SextetOfChar(v: nat)
    requires v < 64
    ensures Sextet(Char(v)) == Some(v) && Char(v) != '=' && Char(v) != '.' && Char(v) < 128 as char
  {
  }

  // ---------- encoding ----------

  // The text of one, two or three bytes; `low` holds the bits of the next byte.
  function Two(a: Byte, low: nat): string
    requires low < 16
  {
    [Char(a / 4), Char(a % 4 * 16 + low)]
  }

  function Three(a: Byte, b: Byte, low: nat): string
    requires low < 4
  {
    Two(a, b / 16) + [Char(b % 16 * 4 + low)]
  }

  function Four(a: Byte, b: Byte, c: Byte): string {
    Three(a, b, c / 64) + [Char(c % 64)]
  }

  function Encode(bs: seq<Byte>): string {
    if bs == [] then ""
    else if |bs| == 1 then Two(bs[0], 0)
    else if |bs| == 2 then Three(bs[0], bs[1], 0)
    else Four(bs[0], bs[1], bs[2]) + Encode(bs[3..])
  }

  // ---------- decoding ----------

  function Prepend(b: Byte, rest: Option<seq<Byte>>): Option<seq<Byte>> {
    if rest.Some? then Some([b] + rest.value) else None
  }

  // One pass over the characters: `quad` sextets of the current group seen,
  // `left` the bits carried over, `pads` the padding seen since the last sextet.
  function Scan(s: string, quad: nat, left: nat, pads: nat): Option<seq<Byte>>
    requires quad < 4 && left < 64 && (quad == 2 ==> left < 16) && (quad == 3 ==> left < 4)
  {
    if s == "" then if quad == 0 then Some([]) else None
    else if s[0] == '=' then
      if quad >= 2 && quad + pads + 1 >= 4 then Some([])
      else Scan(s[1..], quad, left, if quad >= 2 then pads + 1 else pads)
    else
      var v := Sextet(s[0]);
      if v.None? then Scan(s[1..], quad, left, pads)
      else if quad == 0 then Scan(s[1..], 1, v.value, 0)
      else if quad == 1 then Prepend(left * 4 + v.value / 16, Scan(s[1..], 2, v.value % 16, 0))
      else if quad == 2 then Prepend(left * 16 + v.value / 4, Scan(s[1..], 3, v.value % 4, 0))
      else Prepend(left * 64 + v.value, Scan(s[1..], 0, 0, 0))
  }

  predicate Ascii(s: string) {
    forall i :: 0 <= i < |s| ==> s[i] < 128 as char
  }

  // base64.urlsafe_b64decode
  function Decode(s: string): Option<seq<Byte>> {
    if Ascii(s) then Scan(s, 0, 0, 0) else None
  }

  function Equals(n: nat): string {
    seq(n, _ => '=')
  }

  // The padding that decode_token_without_verification appends: between one and
  // four signs, four when none is needed.
  function CodePadding(s: string): string {
    Equals(4 - |s| % 4)
  }

  // The padding that PyJWT appends: none when none is needed.
  function LibraryPadding(s: string): string {
    if |s| % 4 == 0 then "" else Equals(4 - |s| % 4)
  }

  // ---------- encoded text ----------

  predicate Plain(s: string) {
    forall i :: 0 <= i < |s| ==> s[i] < 128 as char && s[i] != '.'
  }

  lemma CharsArePlain(a: Byte, b: Byte, c: Byte)
    ensures Plain(Two(a, 0)) && Plain(Three(a, b, 0)) && Plain(Four(a, b, c))
  {
    forall v: nat | v < 64 ensures Char(v) < 128 as char && Char(v) != '.' {
      SextetOfChar(v);
    }
  }

  lemma {:induction false} EncodeIsPlain(bs: seq<Byte>)
    ensures Plain(Encode(bs))
  {
    if bs != [] {
      CharsArePlain(bs[0], if |bs| > 1 then bs[1] else 0, if |bs| > 2 then bs[2] else 0);
    }
    if |bs| >= 3 {
      EncodeIsPlain(bs[3..]);
    }
  }

  lemma GroupLengths(bytes: nat, chars: nat)
    ensures (bytes + 3) % 3 == bytes % 3 && (4 + chars) % 4 == chars % 4
  {
  }

  lemma {:induction false} EncodeLength(bs: seq<Byte>)
    ensures |Encode(bs)| % 4 == if |bs| % 3 == 0 then 0 else |bs| % 3 + 1
  {
    if |bs| >= 3 {
      EncodeLength(bs[3..]);
      GroupLengths(|bs[3..]|, |Encode(bs[3..])|);
    }
  }

  // ---------- the alphabet and the bits ----------

  // Section 5 of RFC 4648.
  const ALPHABET: string := "ABCDEFGHIJKLMNOPQRSTUVWXYZ" + "abcdefghijklmnopqrstuvwxyz" + "0123456789" + "-_"

  lemma CharInAlphabet(v: nat)
    requires v < 64
    ensures Char(v) == ALPHABET[v]
  {
  }

  // Three bytes read as one number.
  function Bits(a: nat, b: nat, c: nat): nat {
    a * 65536 + b * 256 + c
  }

  // The characters are the base-64 digits of 24 bits.
  ghost predicate Spells(text: string, bits: nat) {
    exists w: nat, x: nat, y: nat, z: nat ::
      && w < 64 && x < 64 && y < 64 && z < 64 && w * 262144 + x * 4096 + y * 64 + z == bits
      && |text| <= 4 && text == [ALPHABET[w], ALPHABET[x], ALPHABET[y], ALPHABET[z]][..|text|]
  }

  lemma BitsOfBytes(a: Byte, b: Byte, c: Byte)
    ensures (a / 4) * 262144 + (a % 4 * 16 + b / 16) * 4096 + (b % 16 * 4 + c / 64) * 64 + c % 64 == Bits(a, b, c)
  {
    assert a == a / 4 * 4 + a % 4 && b == b / 16 * 16 + b % 16 && c == c / 64 * 64 + c % 64;
  }

  lemma FourSpells(a: Byte, b: Byte, c: Byte, n: nat)
    requires 2 <= n <= 4
    ensures Spells(Four(a, b, c)[..n], Bits(a, b, c))
  {
    var w, x, y, z := a / 4, a % 4 * 16 + b / 16, b % 16 * 4 + c / 64, c % 64;
    BitsOfBytes(a, b, c);
    CharInAlphabet(w);
    CharInAlphabet(x);
    CharInAlphabet(y);
    CharInAlphabet(z);
    assert Four(a, b, c) == [ALPHABET[w], ALPHABET[x], ALPHABET[y], ALPHABET[z]];
  }

  // Section 4 of RFC 4648: every three bytes, read as one number, are spelled by
  // four characters; one or two last bytes by two or three, the digits that only
  // missing bytes would fill left out.
  ghost predicate SpellsBytes(text: string, bs: seq<Byte>) {
    if bs == [] then text == ""
    else if |bs| == 1 then |text| == 2 && Spells(text, Bits(bs[0], 0, 0))
    else if |bs| == 2 then |text| == 3 && Spells(text, Bits(bs[0], bs[1], 0))
    else |text| >= 4 && Spells(text[..4], Bits(bs[0], bs[1], bs[2])) && SpellsBytes(text[4..], bs[3..])
  }

  lemma {:induction false} EncodeSpellsBytes(bs: seq<Byte>)
    ensures SpellsBytes(Encode(bs), bs)
  {
    if |bs| == 1 {
      FourSpells(bs[0], 0, 0, 2);
      assert Two(bs[0], 0) == Four(bs[0], 0, 0)[..2];
    } else if |bs| == 2 {
      FourSpells(bs[0], bs[1], 0, 3);
      assert Three(bs[0], bs[1], 0) == Four(bs[0], bs[1], 0)[..3];
    } else if |bs| >= 3 {
      EncodeSpellsBytes(bs[3..]);
      FourSpells(bs[0], bs[1], bs[2], 4);
      var front := Four(bs[0], bs[1], bs[2]);
      assert front[..4] == front && (front + Encode(bs[3..]))[..4] == front;
      assert (front + Encode(bs[3..]))[4..] == Encode(bs[3..]);
    }
  }

  // ---------- round trip ----------

  lemma ScanOne(v: nat, rest: string, quad: nat, left: nat, pads: nat)
    requires v < 64 && quad < 4 && left < 64 && (quad == 2 ==> left < 16) && (quad == 3 ==> left < 4)
    ensures Scan([Char(v)] + rest, quad, left, pads) ==
            if quad == 0 then Scan(rest, 1, v, 0)
            else if quad == 1 then Prepend(left * 4 + v / 16, Scan(rest, 2, v % 16, 0))
            else if quad == 2 then Prepend(left * 16 + v / 4, Scan(rest, 3, v % 4, 0))
            else Prepend(left * 64 + v, Scan(rest, 0, 0, 0))
  {
    SextetOfChar(v);
    assert ([Char(v)] + rest)[1..] == rest;
  }

  lemma ScanTwo(a: Byte, low: nat, rest: string, pads: nat)
    requires low < 16
    ensures Scan(Two(a, low) + rest, 0, 0, pads) == Prepend(a, Scan(rest, 2, low, 0))
  {
    var tail := [Char(a % 4 * 16 + low)] + rest;
    assert Two(a, low) + rest == [Char(a / 4)] + tail;
    ScanOne(a / 4, tail, 0, 0, pads);
    ScanOne(a % 4 * 16 + low, rest, 1, a / 4, 0);
  }

  lemma ScanThree(a: Byte, b: Byte, low: nat, rest: string, pads: nat)
    requires low < 4
    ensures Scan(Three(a, b, low) + rest, 0, 0, pads) == Prepend(a, Prepend(b, Scan(rest, 3, low, 0)))
  {
    var tail := [Char(b % 16 * 4 + low)] + rest;
    assert Three(a, b, low) + rest == Two(a, b / 16) + tail;
    ScanTwo(a, b / 16, tail, pads);
    ScanOne(b % 16 * 4 + low, rest, 2, b / 16, 0);
  }

  lemma ScanFour(a: Byte, b: Byte, c: Byte, rest: string, pads: nat)
    ensures Scan(Four(a, b, c) + rest, 0, 0, pads) == Prepend(a, Prepend(b, Prepend(c, Scan(rest, 0, 0, 0))))
  {
    var tail := [Char(c % 64)] + rest;
    assert Four(a, b, c) + rest == Three(a, b, c / 64) + tail;
    ScanThree(a, b, c / 64, tail, pads);
    ScanOne(c % 64, rest, 3, c / 64, 0);
  }

  // Between groups, padding is skipped.
  lemma {:induction false} ScanPaddingAtStart(n: nat, left: nat, pads: nat)
    requires left < 64
    ensures Scan(Equals(n), 0, left, pads) == Some([])
  {
    if n > 0 {
      assert Equals(n)[1..] == Equals(n - 1);
      ScanPaddingAtStart(n - 1, left, pads);
    }
  }

  // Inside a group, enough padding ends the text.
  lemma PaddingEndsGroup(n: nat, quad: nat, left: nat)
    requires (quad == 2 && n >= 2 && left < 16) || (quad == 3 && n >= 1 && left < 4)
    ensures Scan(Equals(n), quad, left, 0) == Some([])
  {
    if quad == 2 {
      var rest := Equals(n)[1..];
      assert rest[0] == '=';
      assert Scan(rest, 2, left, 1) == Some([]);
    }
  }

  lemma ScanLastOne(a: Byte, n: nat, pads: nat)
    requires n >= 2
    ensures Scan(Two(a, 0) + Equals(n), 0, 0, pads) == Some([a])
  {
    ScanTwo(a, 0, Equals(n), pads);
    PaddingEndsGroup(n, 2, 0);
    assert [a] + [] == [a];
  }

  lemma ScanLastTwo(a: Byte, b: Byte, n: nat, pads: nat)
    requires n >= 1
    ensures Scan(Three(a, b, 0) + Equals(n), 0, 0, pads) == Some([a, b])
  {
    ScanThree(a, b, 0, Equals(n), pads);
    PaddingEndsGroup(n, 3, 0);
    assert [a] + ([b] + []) == [a, b];
  }

  lemma ScanGroup(a: Byte, b: Byte, c: Byte, text: string, tail: string, bs: seq<Byte>, pads: nat)
    requires Scan(text + tail, 0, 0, 0) == Some(bs)
    ensures Scan((Four(a, b, c) + text) + tail, 0, 0, pads) == Some([a, b, c] + bs)
  {
    assert (Four(a, b, c) + text) + tail == Four(a, b, c) + (text + tail);
    ScanFour(a, b, c, text + tail, pads);
    assert [a] + ([b] + ([c] + bs)) == [a, b, c] + bs;
  }

  lemma {:induction false} ScanEncoded(bs: seq<Byte>, n: nat, pads: nat)
    requires |bs| % 3 == 1 ==> n >= 2
    requires |bs| % 3 == 2 ==> n >= 1
    ensures Scan(Encode(bs) + Equals(n), 0, 0, pads) == Some(bs)
  {
    if bs == [] {
      assert Encode(bs) + Equals(n) == Equals(n);
      ScanPaddingAtStart(n, 0, pads);
    } else if |bs| == 1 {
      ScanLastOne(bs[0], n, pads);
      assert bs == [bs[0]];
    } else if |bs| == 2 {
      ScanLastTwo(bs[0], bs[1], n, pads);
      assert bs == [bs[0], bs[1]];
    } else {
      ScanEncoded(bs[3..], n, 0);
      ScanGroup(bs[0], bs[1], bs[2], Encode(bs[3..]), Equals(n), bs[3..], pads);
      assert bs == [bs[0], bs[1], bs[2]] + bs[3..];
    }
  }

  // Both padding rules invert unpadded base64url, for every length.
  lemma PaddingInvertsEncode(bs: seq<Byte>)
    ensures Decode(Encode(bs) + CodePadding(Encode(bs))) == Some(bs)
    ensures Decode(Encode(bs) + LibraryPadding(Encode(bs))) == Some(bs)
  {
    EncodeIsPlain(bs);
    EncodeLength(bs);
    ScanEncoded(bs, |CodePadding(Encode(bs))|, 0);
    ScanEncoded(bs, |LibraryPadding(Encode(bs))|, 0);
    assert LibraryPadding(Encode(bs)) == Equals(|LibraryPadding(Encode(bs))|);
  }

  // ---------- more padding never hurts ----------

  lemma {:induction false} ScanMorePadding(s: string, n: nat, quad: nat, left: nat, pads: nat)
    requires quad < 4 && left < 64 && (quad == 2 ==> left < 16) && (quad == 3 ==> left < 4)
    requires Scan(s, quad, left, pads).Some?
    ensures Scan(s + Equals(n), quad, left, pads) == Scan(s, quad, left, pads)
  {
    if s == "" {
      assert s + Equals(n) == Equals(n);
      ScanPaddingAtStart(n, left, pads);
    } else {
      assert (s + Equals(n))[0] == s[0] && (s + Equals(n))[1..] == s[1..] + Equals(n);
      var v := Sextet(s[0]);
      if s[0] == '=' {
        if !(quad >= 2 && quad + pads + 1 >= 4) {
          ScanMorePadding(s[1..], n, quad, left, if quad >= 2 then pads + 1 else pads);
        }
      } else if v.None? {
        ScanMorePadding(s[1..], n, quad, left, pads);
      } else if quad == 0 {
        ScanMorePadding(s[1..], n, 1, v.value, 0);
      } else if quad == 1 {
        ScanMorePadding(s[1..], n, 2, v.value % 16, 0);
      } else if quad == 2 {
        ScanMorePadding(s[1..], n, 3, v.value % 4, 0);
      } else {
        ScanMorePadding(s[1..], n, 0, 0, 0);
      }
    }
  }

  // What PyJWT can decode, the code decodes to the same bytes.
  lemma CodePaddingExtendsLibrary(s: string)
    requires Decode(s + LibraryPadding(s)).Some?
    ensures Decode(s + CodePadding(s)) == Decode(s + LibraryPadding(s))
  {
    if |s| % 4 == 0 {
      assert s + LibraryPadding(s) == s;
      ScanMorePadding(s, 4, 0, 0, 0);
    }
  }
}
