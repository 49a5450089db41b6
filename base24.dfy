/**
 * The Base24 codec: 4-byte blocks <-> 7-character groups over a 24-symbol
 * alphabet that leaves out visually ambiguous characters.
 *
 * A block is read as a big-endian unsigned 32-bit value and written as its
 * 7-digit base-24 notation, most significant digit first (24^7 > 2^32, so
 * every 32-bit value fits). Decoding is case-insensitive and rejects the whole
 * input on a bad length or on any character outside the alphabet.
 */
module Base24 {
  import opened Positional

  /** One byte value, as the encoder's integer-array input holds it. */
  type Byte = b: int | 0 <= b < 256

  /** One base-24 digit value. */
  type Digit = d: int | 0 <= d < 24

  const Radix: nat := 24
  /** Bytes per block. */
  const BlockSize: nat := 4
  /** Characters per text group. */
  const GroupSize: nat := 7
  /** 2^32: one past the largest value a block holds. */
  const BlockLimit: nat := 0x1_0000_0000

  /** Digit value -> symbol: the symbol of digit d is Alphabet[d]. */
  const Alphabet: string := "ZAC2B3EF4GH5TK67P8RS9WXY"

  datatype Option<T> = None | Some(value: T)

  /** The three ways an input is rejected (each an `InvalidArgumentException` thrown by `Encoder`). */
  datatype CodecError =
    | EncodeLengthNotMultipleOf4
    | DecodeLengthNotMultipleOf7
    | InvalidCharacter

  datatype Result<T> = Ok(value: T) | Err(error: CodecError)

  /**
   * The exception message that goes with each error. The messages tell the
   * errors apart: character 9 starts the operation's name (encode or decode),
   * character 16 starts "must" or "contains", and each length message ends in
   * the multiple it asks for.
   */
  function Message(e: CodecError): (m: string)
    ensures |m| > 16
    ensures m[9] == (if e == EncodeLengthNotMultipleOf4 then 'e' else 'd')
    ensures m[16] == (if e == InvalidCharacter then 'c' else 'm')
    ensures e != InvalidCharacter ==> m[|m| - 1] == (if e == EncodeLengthNotMultipleOf4 then '4' else '7')
  {
    match e
    case EncodeLengthNotMultipleOf4 => "Input to encode must have a length multiple of 4"
    case DecodeLengthNotMultipleOf7 => "Input to decode must have a length multiple of 7"
    case InvalidCharacter => "Input to decode contains an invalid character"
  }

  // ---------------------------------------------------------------------
  // The alphabet and case handling
  // ---------------------------------------------------------------------

  /** Symbol -> digit value: the decoding table, over upper-case symbols. */
  function SymbolValue(c: char): (r: Option<Digit>)
    ensures r.Some? ==> Alphabet[r.value] == c
  {
    match c
    case 'Z' => Some(0)   case 'A' => Some(1)   case 'C' => Some(2)   case '2' => Some(3)
    case 'B' => Some(4)   case '3' => Some(5)   case 'E' => Some(6)   case 'F' => Some(7)
    case '4' => Some(8)   case 'G' => Some(9)   case 'H' => Some(10)  case '5' => Some(11)
    case 'T' => Some(12)  case 'K' => Some(13)  case '6' => Some(14)  case '7' => Some(15)
    case 'P' => Some(16)  case '8' => Some(17)  case 'R' => Some(18)  case 'S' => Some(19)
    case '9' => Some(20)  case 'W' => Some(21)  case 'X' => Some(22)  case 'Y' => Some(23)
    case _ => None
  }

  /** ASCII upper-casing; every other character is left alone. */
  function ToUpper(c: char): char
  {
    if 'a' <= c <= 'z' then (c as int - 32) as char else c
  }

  /** ASCII lower-casing; every other character is left alone. */
  function ToLower(c: char): char
  {
    if 'A' <= c <= 'Z' then (c as int + 32) as char else c
  }

  /** strtoupper: lower-case ASCII letters become upper-case, nothing else changes. */
  function Upper(s: string): (u: string)
    ensures |u| == |s|
    ensures forall i :: 0 <= i < |s| ==> !('a' <= u[i] <= 'z')
    ensures forall i :: 0 <= i < |s| ==> u[i] == s[i] || ('a' <= s[i] <= 'z' && ToLower(u[i]) == s[i])
  {
    seq(|s|, i requires 0 <= i < |s| => ToUpper(s[i]))
  }

  function Lower(s: string): string
  {
    seq(|s|, i requires 0 <= i < |s| => ToLower(s[i]))
  }

  /** c is accepted by the decoder, in either case. */
  predicate IsSymbol(c: char)
  {
    SymbolValue(ToUpper(c)).Some?
  }

  /** Every character of s is accepted by the decoder. */
  predicate IsValidText(s: string)
  {
    forall i :: 0 <= i < |s| ==> IsSymbol(s[i])
  }

  /** s consists of upper-case alphabet symbols only, as encoder output does. */
  predicate IsCanonical(s: string)
  {
    forall i :: 0 <= i < |s| ==> s[i] in Alphabet
  }

  /** The decoding table maps each digit's symbol back to that digit; every symbol is upper-case. */
  lemma SymbolOfDigit(d: Digit)
    ensures SymbolValue(Alphabet[d]) == Some(d) && ToUpper(Alphabet[d]) == Alphabet[d]
  {
    assert Alphabet == ['Z', 'A', 'C', '2', 'B', '3', 'E', 'F', '4', 'G', 'H', '5',
                        'T', 'K', '6', '7', 'P', '8', 'R', 'S', '9', 'W', 'X', 'Y'];
    if d < 12 {
      if d < 6 {} else {}
    } else {
      if d < 18 {} else {}
    }
  }

  /** The decoding table accepts only the alphabet's symbols, each for its own digit. */
  lemma DigitOfSymbol(c: char, d: Digit)
    requires SymbolValue(c) == Some(d)
    ensures Alphabet[d] == c
  {
  }

  /**
   * The two tables are inverse bijections between the digit values 0..23 and
   * the 24 alphabet symbols, and every symbol is already upper-case.
   */
  lemma AlphabetBijection()
    ensures |Alphabet| == Radix
    ensures forall d: Digit :: SymbolValue(Alphabet[d]) == Some(d)
    ensures forall c: char, d: Digit :: SymbolValue(c) == Some(d) ==> Alphabet[d] == c
    ensures forall d: Digit :: ToUpper(Alphabet[d]) == Alphabet[d]
  {
    forall d: Digit ensures SymbolValue(Alphabet[d]) == Some(d) && ToUpper(Alphabet[d]) == Alphabet[d] {
      SymbolOfDigit(d);
    }
    forall c: char, d: Digit | SymbolValue(c) == Some(d) ensures Alphabet[d] == c {
      DigitOfSymbol(c, d);
    }
  }

  // ---------------------------------------------------------------------
  // One block <-> one group
  // ---------------------------------------------------------------------

  /** The symbols of a digit string. */
  function Symbols(ds: seq<int>): string
    requires IsDigits(ds, Radix)
  {
    seq(|ds|, i requires 0 <= i < |ds| => Alphabet[ds[i]])
  }

  /** The digit values of accepted text, read case-insensitively. */
  function TextDigits(s: string): (ds: seq<int>)
    requires IsValidText(s)
    ensures |ds| == |s| && IsDigits(ds, Radix)
    ensures forall i :: 0 <= i < |s| ==> Alphabet[ds[i]] == ToUpper(s[i])
  {
    AlphabetBijection();
    seq(|s|, i requires 0 <= i < |s| => SymbolValue(ToUpper(s[i])).value)
  }

  /** The unsigned big-endian value of a 4-byte block. */
  function BlockValue(block: seq<Byte>): (v: nat)
    requires |block| == BlockSize
    ensures v < BlockLimit
  {
    FromDigits(block, 256)
  }

  /** The base-24 value of an accepted 7-character group. */
  function GroupValue(group: string): (v: nat)
    requires |group| == GroupSize && IsValidText(group)
    ensures v < Pow(Radix, GroupSize)
  {
    FromDigits(TextDigits(group), Radix)
  }

  /** One block as its 7-digit base-24 notation. */
  function EncodeBlock(block: seq<Byte>): (group: string)
    requires |block| == BlockSize
    ensures |group| == GroupSize && IsCanonical(group)
  {
    Symbols(ToDigits(BlockValue(block), Radix, GroupSize))
  }

  /** The group written for a block denotes the block's value. */
  lemma EncodeBlockValue(block: seq<Byte>)
    requires |block| == BlockSize
    ensures IsValidText(EncodeBlock(block))
    ensures GroupValue(EncodeBlock(block)) == BlockValue(block)
  {
    var v := BlockValue(block);
    var ds := ToDigits(v, Radix, GroupSize);
    AlphabetBijection();
    assert TextDigits(EncodeBlock(block)) == ds;
    FromToDigits(v, Radix, GroupSize);
  }

  /** One group as 4 bytes, most significant byte first. */
  function DecodeGroup(group: string): (block: seq<Byte>)
    requires |group| == GroupSize && IsValidText(group)
    ensures |block| == BlockSize
  {
    ToDigits(GroupValue(group), 256, BlockSize)
  }

  /**
   * The block decoded from a group holds the group's value; a value of 2^32
   * or more keeps only its low 32 bits (a choice of this model, see README).
   */
  lemma DecodeGroupValue(group: string)
    requires |group| == GroupSize && IsValidText(group)
    ensures BlockValue(DecodeGroup(group)) == GroupValue(group) % BlockLimit
  {
    ToDigitsValue(GroupValue(group), 256, BlockSize);
  }

  // ---------------------------------------------------------------------
  // Whole inputs
  // ---------------------------------------------------------------------

  /** A non-empty run of whole blocks holds a first block and whole blocks after it. */
  lemma BlockStep(n: nat)
    requires n % BlockSize == 0 && n != 0
    ensures n >= BlockSize && (n - BlockSize) % BlockSize == 0
  {
  }

  /** A non-empty run of whole groups holds a first group and whole groups after it. */
  lemma GroupStep(n: nat)
    requires n % GroupSize == 0 && n != 0
    ensures n >= GroupSize && (n - GroupSize) % GroupSize == 0
  {
  }

  /** One more block after whole blocks still makes whole blocks. */
  lemma BlockCons(n: nat)
    requires n % BlockSize == 0
    ensures (n + BlockSize) % BlockSize == 0
  {
  }

  /** One more group after whole groups still makes whole groups. */
  lemma GroupCons(n: nat)
    requires n % GroupSize == 0
    ensures (n + GroupSize) % GroupSize == 0
  {
  }

  /** Whole blocks followed by whole blocks make whole blocks. */
  lemma BlocksAppend(m: nat, n: nat)
    requires m % BlockSize == 0 && n % BlockSize == 0
    ensures (m + n) % BlockSize == 0
  {
  }

  /** Whole groups followed by whole groups make whole groups. */
  lemma GroupsAppend(m: nat, n: nat)
    requires m % GroupSize == 0 && n % GroupSize == 0
    ensures (m + n) % GroupSize == 0
  {
  }

  /** Each 4-byte block encoded in turn, groups concatenated in block order. */
  function EncodeBlocks(data: seq<Byte>): (text: string)
    requires |data| % BlockSize == 0
    ensures |text| * BlockSize == |data| * GroupSize && |text| % GroupSize == 0
    ensures IsCanonical(text)
    decreases |data|
  {
    if data == [] then []
    else
      BlockStep(|data|);
      var head := EncodeBlock(data[..BlockSize]);
      var tail := EncodeBlocks(data[BlockSize..]);
      GroupCons(|tail|);
      assert forall i :: 0 <= i < |head + tail| ==>
        (head + tail)[i] == if i < |head| then head[i] else tail[i - |head|];
      head + tail
  }

  /** Each 7-character group decoded in turn, blocks concatenated in group order. */
  function DecodeGroups(text: string): (data: seq<Byte>)
    requires |text| % GroupSize == 0 && IsValidText(text)
    ensures |data| * GroupSize == |text| * BlockSize && |data| % BlockSize == 0
    decreases |text|
  {
    if text == [] then []
    else
      GroupStep(|text|);
      ValidSlice(text, GroupSize);
      var head := DecodeGroup(text[..GroupSize]);
      var tail := DecodeGroups(text[GroupSize..]);
      BlockCons(|tail|);
      head + tail
  }

  /** Encoding non-empty input writes the first block's group, then the rest. */
  lemma EncodeBlocksCons(data: seq<Byte>)
    requires |data| % BlockSize == 0 && data != []
    ensures |data| >= BlockSize && |data[BlockSize..]| % BlockSize == 0
    ensures EncodeBlocks(data) == EncodeBlock(data[..BlockSize]) + EncodeBlocks(data[BlockSize..])
  {
    BlockStep(|data|);
  }

  /** Decoding non-empty accepted text reads the first group, then the rest. */
  lemma DecodeGroupsCons(text: string)
    requires |text| % GroupSize == 0 && IsValidText(text) && text != []
    ensures |text| >= GroupSize && |text[GroupSize..]| % GroupSize == 0
    ensures IsValidText(text[..GroupSize]) && IsValidText(text[GroupSize..])
    ensures DecodeGroups(text) == DecodeGroup(text[..GroupSize]) + DecodeGroups(text[GroupSize..])
  {
    GroupStep(|text|);
    ValidSlice(text, GroupSize);
  }

  /** Encoder::encode: bytes to upper-case Base24 text. */
  function Encode(data: seq<Byte>): (r: Result<string>)
    ensures r.Err? <==> |data| % BlockSize != 0
    ensures r.Err? ==> r.error == EncodeLengthNotMultipleOf4
    ensures r.Ok? ==> |r.value| * BlockSize == |data| * GroupSize
    ensures r.Ok? ==> IsCanonical(r.value)
  {
    if |data| % BlockSize != 0 then Err(EncodeLengthNotMultipleOf4)
    else Ok(EncodeBlocks(data))
  }

  /** Encoder::decode: Base24 text, in either case, to bytes. */
  function Decode(text: string): (r: Result<seq<Byte>>)
    ensures r == Err(DecodeLengthNotMultipleOf7) <==> |text| % GroupSize != 0
    ensures r == Err(InvalidCharacter) <==> |text| % GroupSize == 0 && !IsValidText(text)
    ensures r.Ok? <==> |text| % GroupSize == 0 && IsValidText(text)
    ensures r.Ok? ==> |r.value| * GroupSize == |text| * BlockSize
  {
    if |text| % GroupSize != 0 then Err(DecodeLengthNotMultipleOf7)
    else if !IsValidText(text) then Err(InvalidCharacter)
    else Ok(DecodeGroups(text))
  }

  /** Canonical text is its own upper-case form. */
  lemma CanonicalIsUpper(s: string)
    requires IsCanonical(s)
    ensures Upper(s) == s
  {
    AlphabetBijection();
    forall i | 0 <= i < |s| ensures ToUpper(s[i]) == s[i] {
      var d :| 0 <= d < |Alphabet| && Alphabet[d] == s[i];
    }
  }

  /** Encoder output is already upper-case: upper-casing it changes nothing. */
  lemma EncodeIsUpper(data: seq<Byte>)
    requires |data| % BlockSize == 0
    ensures Upper(Encode(data).value) == Encode(data).value
  {
    CanonicalIsUpper(Encode(data).value);
  }

  /** Canonical text is accepted by the decoder. */
  lemma CanonicalIsValid(s: string)
    requires IsCanonical(s)
    ensures IsValidText(s)
  {
    AlphabetBijection();
    forall i | 0 <= i < |s| ensures IsSymbol(s[i]) {
      var d :| 0 <= d < |Alphabet| && Alphabet[d] == s[i];
    }
  }

  /** Text is accepted exactly when its upper-case form is made of alphabet symbols only. */
  lemma ValidIsCanonicalUpper(s: string)
    ensures IsValidText(s) <==> IsCanonical(Upper(s))
  {
    AlphabetBijection();
    var u := Upper(s);
    forall i | 0 <= i < |s| ensures IsSymbol(s[i]) <==> u[i] in Alphabet {
      assert u[i] == ToUpper(s[i]);
      if u[i] in Alphabet {
        var d :| 0 <= d < |Alphabet| && Alphabet[d] == u[i];
      }
    }
  }

  // ---------------------------------------------------------------------
  // Positional meaning of blocks and groups
  // ---------------------------------------------------------------------

  /** A block is read as an unsigned 32-bit value, byte 0 most significant. */
  lemma BlockValueBigEndian(block: seq<Byte>)
    requires |block| == BlockSize
    ensures BlockValue(block) == (block[0] as int) * 0x100_0000 + (block[1] as int) * 0x1_0000
                                 + (block[2] as int) * 0x100 + block[3] as int
  {
    var b: seq<int> := block;
    FromDigitsPrefix(b, 1, 256);
    FromDigitsPrefix(b, 2, 256);
    FromDigitsPrefix(b, 3, 256);
    FromDigitsPrefix(b, 4, 256);
    assert b[..0] == [] && b[..4] == b;
  }

  /** Seven base-24 digits, most significant first, denote sum of ds[i] * 24^(6-i). */
  lemma DigitsValue(ds: seq<int>)
    requires |ds| == GroupSize && IsDigits(ds, Radix)
    ensures FromDigits(ds, Radix) == ds[0] * 191102976 + ds[1] * 7962624 + ds[2] * 331776
                                     + ds[3] * 13824 + ds[4] * 576 + ds[5] * 24 + ds[6]
  {
    LeadingDigitsValue(ds);
    FromDigitsPrefix(ds, 5, Radix);
    FromDigitsPrefix(ds, 6, Radix);
    FromDigitsPrefix(ds, 7, Radix);
    assert ds[..7] == ds;
  }

  /** The first four of seven base-24 digits. */
  lemma LeadingDigitsValue(ds: seq<int>)
    requires |ds| == GroupSize && IsDigits(ds, Radix)
    ensures FromDigits(ds[..4], Radix) == ds[0] * 13824 + ds[1] * 576 + ds[2] * 24 + ds[3]
  {
    FromDigitsPrefix(ds, 1, Radix);
    FromDigitsPrefix(ds, 2, Radix);
    FromDigitsPrefix(ds, 3, Radix);
    FromDigitsPrefix(ds, 4, Radix);
    assert ds[..0] == [];
  }

  // ---------------------------------------------------------------------
  // One block <-> one group: the two directions
  // ---------------------------------------------------------------------

  /** Decoding the group written for a block gives the block back. */
  lemma DecodeEncodeBlock(block: seq<Byte>)
    requires |block| == BlockSize
    ensures IsValidText(EncodeBlock(block))
    ensures DecodeGroup(EncodeBlock(block)) == block
  {
    EncodeBlockValue(block);
    ToFromDigits(block, 256);
  }

  /** Text that differs only in letter case has the same digits. */
  lemma DigitsIgnoreCase(s: string, t: string)
    requires |s| == |t| && forall i :: 0 <= i < |s| ==> ToUpper(s[i]) == ToUpper(t[i])
    ensures IsValidText(s) <==> IsValidText(t)
    ensures IsValidText(s) ==> TextDigits(s) == TextDigits(t)
  {
    assert forall i :: 0 <= i < |s| ==> (IsSymbol(s[i]) <==> IsSymbol(t[i]));
  }

  /** A decoded group whose value fits in 32 bits re-encodes to its upper-case form. */
  lemma EncodeDecodeGroupFits(group: string)
    requires |group| == GroupSize && IsValidText(group) && GroupValue(group) < BlockLimit
    ensures EncodeBlock(DecodeGroup(group)) == Upper(group)
  {
    var ds := TextDigits(group);
    var block := DecodeGroup(group);
    DecodeGroupValue(group);
    assert BlockValue(block) == GroupValue(group);
    ToFromDigits(ds, Radix);
    assert ToDigits(BlockValue(block), Radix, GroupSize) == ds;
    AlphabetBijection();
  }

  /**
   * Re-encoding a decoded group gives its upper-case form exactly when the
   * group's value fits in 32 bits; a larger value was truncated on decoding.
   */
  lemma EncodeDecodeGroup(group: string)
    requires |group| == GroupSize && IsValidText(group)
    ensures EncodeBlock(DecodeGroup(group)) == Upper(group) <==> GroupValue(group) < BlockLimit
  {
    if GroupValue(group) < BlockLimit {
      EncodeDecodeGroupFits(group);
    } else if EncodeBlock(DecodeGroup(group)) == Upper(group) {
      var block := DecodeGroup(group);
      DecodeGroupValue(group);
      EncodeBlockValue(block);
      UpperKeepsDigits(group);
      assert false;
    }
  }

  /** Upper-casing accepted text keeps it accepted and keeps its digits. */
  lemma UpperKeepsDigits(s: string)
    ensures IsValidText(Upper(s)) <==> IsValidText(s)
    ensures IsValidText(s) ==> TextDigits(Upper(s)) == TextDigits(s)
  {
    DigitsIgnoreCase(s, Upper(s));
  }

  // ---------------------------------------------------------------------
  // Whole inputs: block independence
  // ---------------------------------------------------------------------

  /** Encoding works block by block: the encoding of a + b is that of a followed by that of b. */
  lemma {:induction false} EncodeBlocksAppend(a: seq<Byte>, b: seq<Byte>)
    requires |a| % BlockSize == 0 && |b| % BlockSize == 0
    ensures EncodeBlocks(a + b) == EncodeBlocks(a) + EncodeBlocks(b)
    decreases |a|
  {
    if a == [] {
      assert a + b == b;
    } else {
      var head, rest := a[..BlockSize], a[BlockSize..];
      BlocksAppend(|a|, |b|);
      BlockStep(|a|);
      assert (a + b)[..BlockSize] == head;
      assert (a + b)[BlockSize..] == rest + b;
      calc {
        EncodeBlocks(a + b);
        EncodeBlock(head) + EncodeBlocks(rest + b);
        { EncodeBlocksAppend(rest, b); }
        EncodeBlock(head) + (EncodeBlocks(rest) + EncodeBlocks(b));
        (EncodeBlock(head) + EncodeBlocks(rest)) + EncodeBlocks(b);
      }
    }
  }

  /** Decoding works group by group: the decoding of s + t is that of s followed by that of t. */
  lemma {:induction false} DecodeGroupsAppend(s: string, t: string)
    requires |s| % GroupSize == 0 && |t| % GroupSize == 0 && IsValidText(s) && IsValidText(t)
    ensures IsValidText(s + t)
    ensures DecodeGroups(s + t) == DecodeGroups(s) + DecodeGroups(t)
    decreases |s|
  {
    ValidAppend(s, t);
    if s == [] {
      assert s + t == t;
    } else {
      GroupsAppend(|s|, |t|);
      GroupStep(|s|);
      var st := s + t;
      ValidSlice(s, GroupSize);
      ValidSlice(st, GroupSize);
      assert st[..GroupSize] == s[..GroupSize];
      assert st[GroupSize..] == s[GroupSize..] + t;
      DecodeGroupsAppend(s[GroupSize..], t);
    }
  }

  /** Text is accepted as a whole exactly when both of its parts are. */
  lemma ValidAppend(s: string, t: string)
    ensures IsValidText(s + t) <==> IsValidText(s) && IsValidText(t)
  {
    if IsValidText(s + t) {
      forall i | 0 <= i < |s| ensures IsSymbol(s[i]) {
        assert (s + t)[i] == s[i];
      }
      forall i | 0 <= i < |t| ensures IsSymbol(t[i]) {
        assert (s + t)[|s| + i] == t[i];
      }
    }
    if IsValidText(s) && IsValidText(t) {
      forall i | 0 <= i < |s + t| ensures IsSymbol((s + t)[i]) {
        if i >= |s| {
          assert (s + t)[i] == t[i - |s|];
        }
      }
    }
  }

  /** Dropping a prefix of accepted text leaves accepted text. */
  lemma ValidSlice(s: string, k: nat)
    requires IsValidText(s) && k <= |s|
    ensures IsValidText(s[k..]) && IsValidText(s[..k])
  {
  }

  /** Encoder::encode on a concatenation of whole blocks. */
  lemma EncodeAppend(a: seq<Byte>, b: seq<Byte>)
    requires |a| % BlockSize == 0 && |b| % BlockSize == 0
    ensures Encode(a + b) == Ok(Encode(a).value + Encode(b).value)
  {
    BlocksAppend(|a|, |b|);
    EncodeBlocksAppend(a, b);
    assert Encode(a).value == EncodeBlocks(a) && Encode(b).value == EncodeBlocks(b);
  }

  /**
   * Encoder::decode on a concatenation of whole groups: it succeeds exactly
   * when both parts do, with the parts' bytes in order, and otherwise reports
   * the invalid character.
   */
  lemma DecodeAppend(s: string, t: string)
    requires |s| % GroupSize == 0 && |t| % GroupSize == 0
    ensures Decode(s + t) ==
      if Decode(s).Ok? && Decode(t).Ok? then Ok(Decode(s).value + Decode(t).value)
      else Err(InvalidCharacter)
  {
    GroupsAppend(|s|, |t|);
    ValidAppend(s, t);
    if IsValidText(s) && IsValidText(t) {
      DecodeGroupsAppend(s, t);
    } else if !IsValidText(s) {
      var i :| 0 <= i < |s| && !IsSymbol(s[i]);
      assert (s + t)[i] == s[i];
    } else {
      var i :| 0 <= i < |t| && !IsSymbol(t[i]);
      assert (s + t)[|s| + i] == t[i];
    }
  }

  // ---------------------------------------------------------------------
  // Whole inputs: round trips
  // ---------------------------------------------------------------------

  /** Decoding the encoding of whole blocks gives them back. */
  lemma {:induction false} DecodeEncodeBlocks(data: seq<Byte>)
    requires |data| % BlockSize == 0
    ensures IsValidText(EncodeBlocks(data))
    ensures DecodeGroups(EncodeBlocks(data)) == data
    decreases |data|
  {
    var text := EncodeBlocks(data);
    CanonicalIsValid(text);
    if data != [] {
      EncodeBlocksCons(data);
      var head, tail := data[..BlockSize], data[BlockSize..];
      DecodeEncodeBlock(head);
      DecodeEncodeBlocks(tail);
      DecodeGroupsCons(text);
      assert text[..GroupSize] == EncodeBlock(head);
      assert text[GroupSize..] == EncodeBlocks(tail);
      assert data == head + tail;
    }
  }

  /** decode(encode(x)) == x for every input whose length is a multiple of 4. */
  lemma DecodeEncode(data: seq<Byte>)
    requires |data| % BlockSize == 0
    ensures Encode(data).Ok? && Decode(Encode(data).value) == Ok(data)
  {
    DecodeEncodeBlocks(data);
  }

  /** Every group of the text has a value below 2^32, i.e. is the encoding of some block. */
  predicate GroupsFit(text: string)
    requires |text| % GroupSize == 0 && IsValidText(text)
    decreases |text|
  {
    text == [] ||
    (GroupStep(|text|); ValidSlice(text, GroupSize);
     GroupValue(text[..GroupSize]) < BlockLimit && GroupsFit(text[GroupSize..]))
  }

  /**
   * Re-encoding decoded text canonicalises its case, and gives its upper-case
   * form back exactly when every group fits in 32 bits.
   */
  lemma {:induction false} EncodeDecodeGroups(text: string)
    requires |text| % GroupSize == 0 && IsValidText(text)
    ensures EncodeBlocks(DecodeGroups(text)) == Upper(text) <==> GroupsFit(text)
    decreases |text|
  {
    if text != [] {
      GroupStep(|text|);
      ValidSlice(text, GroupSize);
      var head, tail := text[..GroupSize], text[GroupSize..];
      EncodeDecodeGroup(head);
      EncodeDecodeGroups(tail);
      EncodeDecodeGroupsStep(text);
      assert Upper(text) == Upper(head) + Upper(tail);
      SplitEqual(EncodeBlock(DecodeGroup(head)), EncodeBlocks(DecodeGroups(tail)), Upper(head), Upper(tail));
    }
  }

  /** Re-encoding non-empty decoded text: the first group's re-encoding, then the rest's. */
  lemma EncodeDecodeGroupsStep(text: string)
    requires |text| % GroupSize == 0 && IsValidText(text) && text != []
    ensures EncodeBlocks(DecodeGroups(text))
         == EncodeBlock(DecodeGroup(text[..GroupSize])) + EncodeBlocks(DecodeGroups(text[GroupSize..]))
  {
    DecodeGroupsCons(text);
    var data := DecodeGroups(text);
    EncodeBlocksCons(data);
    assert data[..BlockSize] == DecodeGroup(text[..GroupSize]);
    assert data[BlockSize..] == DecodeGroups(text[GroupSize..]);
  }

  /** Two concatenations with equal-length first parts are equal exactly when the parts are. */
  lemma SplitEqual(a: string, b: string, c: string, d: string)
    requires |a| == |c|
    ensures a + b == c + d <==> a == c && b == d
  {
    if a + b == c + d {
      assert a == (a + b)[..|a|] && c == (c + d)[..|a|];
      assert b == (a + b)[|a|..] && d == (c + d)[|a|..];
    }
  }

  /**
   * encode(decode(s)) is upper(s) for accepted text whose every group fits in
   * 32 bits, and differs from it otherwise.
   */
  lemma EncodeDecode(text: string)
    requires Decode(text).Ok?
    ensures Encode(Decode(text).value) == Ok(Upper(text)) <==> GroupsFit(text)
  {
    EncodeDecodeGroups(text);
  }

  /** Text that encode produced always decodes, and every one of its groups fits in 32 bits. */
  lemma EncodedFits(data: seq<Byte>)
    requires |data| % BlockSize == 0
    ensures Decode(Encode(data).value).Ok? && GroupsFit(Encode(data).value)
  {
    DecodeEncode(data);
    EncodeIsUpper(data);
    EncodeDecode(Encode(data).value);
  }

  // ---------------------------------------------------------------------
  // Case-insensitive decoding
  // ---------------------------------------------------------------------

  /** Text that differs only in letter case decodes group by group to the same bytes. */
  lemma {:induction false} DecodeGroupsIgnoresCase(s: string, t: string)
    requires |s| == |t| && forall i :: 0 <= i < |s| ==> ToUpper(s[i]) == ToUpper(t[i])
    requires |s| % GroupSize == 0 && IsValidText(s)
    ensures IsValidText(t) && DecodeGroups(s) == DecodeGroups(t)
    decreases |s|
  {
    DigitsIgnoreCase(s, t);
    if s != [] {
      DecodeGroupsCons(s);
      DigitsIgnoreCase(s[..GroupSize], t[..GroupSize]);
      DecodeGroupsIgnoresCase(s[GroupSize..], t[GroupSize..]);
    }
  }

  /** Encoder::decode ignores letter case: s, upper(s) and lower(s) decode alike. */
  lemma DecodeIgnoresCase(s: string)
    ensures Decode(Upper(s)) == Decode(s)
    ensures Decode(Lower(s)) == Decode(s)
  {
    DigitsIgnoreCase(s, Upper(s));
    DigitsIgnoreCase(s, Lower(s));
    if |s| % GroupSize == 0 && IsValidText(s) {
      DecodeGroupsIgnoresCase(s, Upper(s));
      DecodeGroupsIgnoresCase(s, Lower(s));
    }
  }
  // ---------------------------------------------------------------------
  // The binary-string variants
  // ---------------------------------------------------------------------

  /** The bytes of a PHP binary string, as the integer array the codec takes. */
  function ToBytes(s: seq<bv8>): (bs: seq<Byte>)
    ensures |bs| == |s|
  {
    seq(|s|, i requires 0 <= i < |s| => s[i] as int)
  }

  /** An integer byte array as a PHP binary string. */
  function FromBytes(bs: seq<Byte>): (s: seq<bv8>)
    ensures |s| == |bs|
  {
    seq(|bs|, i requires 0 <= i < |bs| => bs[i] as bv8)
  }

  /** The two representations of a byte sequence convert into each other without loss. */
  lemma BytesRoundTrip(s: seq<bv8>, bs: seq<Byte>)
    ensures FromBytes(ToBytes(s)) == s
    ensures ToBytes(FromBytes(bs)) == bs
  {
    forall i | 0 <= i < |s| ensures FromBytes(ToBytes(s))[i] == s[i] {
      assert ToBytes(s)[i] == s[i] as int;
    }
    forall i | 0 <= i < |bs| ensures ToBytes(FromBytes(bs))[i] == bs[i] {
      assert FromBytes(bs)[i] == bs[i] as bv8;
    }
  }

  /** Encoder::encodeBinaryString: a byte string to upper-case Base24 text. */
  function EncodeBinaryString(s: seq<bv8>): (r: Result<string>)
    ensures r.Err? <==> |s| % BlockSize != 0
    ensures r.Err? ==> r.error == EncodeLengthNotMultipleOf4
    ensures r.Ok? ==> |r.value| * BlockSize == |s| * GroupSize && IsCanonical(r.value)
  {
    Encode(ToBytes(s))
  }

  /** Encoder::decodeBinaryString: Base24 text, in either case, to a byte string. */
  function DecodeBinaryString(text: string): (r: Result<seq<bv8>>)
    ensures r == Err(DecodeLengthNotMultipleOf7) <==> |text| % GroupSize != 0
    ensures r == Err(InvalidCharacter) <==> |text| % GroupSize == 0 && !IsValidText(text)
    ensures r.Ok? <==> |text| % GroupSize == 0 && IsValidText(text)
    ensures r.Ok? ==> |r.value| * GroupSize == |text| * BlockSize
  {
    match Decode(text)
    case Ok(bs) => Ok(FromBytes(bs))
    case Err(e) => Err(e)
  }

  /**
   * The binary-string variants agree with the integer-array ones on the same
   * bytes: same text, same errors, same decoded bytes.
   */
  lemma BinaryStringAgrees(bs: seq<Byte>, text: string)
    ensures EncodeBinaryString(FromBytes(bs)) == Encode(bs)
    ensures DecodeBinaryString(text).Ok? <==> Decode(text).Ok?
    ensures DecodeBinaryString(text).Ok? ==> ToBytes(DecodeBinaryString(text).value) == Decode(text).value
    ensures DecodeBinaryString(text).Err? ==> DecodeBinaryString(text).error == Decode(text).error
  {
    BytesRoundTrip([], bs);
    if Decode(text).Ok? {
      BytesRoundTrip([], Decode(text).value);
    }
  }

  /** decodeBinaryString(encodeBinaryString(s)) == s for every byte string whose length is a multiple of 4. */
  lemma DecodeEncodeBinaryString(s: seq<bv8>)
    requires |s| % BlockSize == 0
    ensures EncodeBinaryString(s).Ok? && DecodeBinaryString(EncodeBinaryString(s).value) == Ok(s)
  {
    DecodeEncode(ToBytes(s));
    BytesRoundTrip(s, []);
  }
}
