/**
 * The address check of the proxy (server.js, `isValidEthereumAddress`):
 * a JavaScript regular-expression test of the string against
 * `/^0x[a-fA-F0-9]{40}$/`, with no flags.
 *
 * The regular expression is modelled by its structure: an anchored sequence
 * of pieces, each a character class repeated a fixed number of times. Every
 * count is fixed, so matching needs no backtracking. `ValidIff` then states
 * what the pattern accepts in plain terms: 42 characters, a lower-case `0x`
 * prefix and 40 hexadecimal digits of either case.
 */
module EthAddress {

  /** One character class of the pattern: a single literal, or a union of ranges. */
  datatype CharClass = Literal(ch: char) | Ranges(ranges: seq<(char, char)>)

  /** A class that must match exactly `count` consecutive characters (`x` is `x{1}`). */
  datatype Piece = Piece(cls: CharClass, count: nat)

  predicate InClass(cls: CharClass, c: char) {
    match cls
    case Literal(l) => c == l
    case Ranges(rs) => exists k :: 0 <= k < |rs| && rs[k].0 <= c <= rs[k].1
  }

  /** Every character of `s` belongs to `cls`. */
  predicate AllIn(cls: CharClass, s: string) {
    forall i :: 0 <= i < |s| ==> InClass(cls, s[i])
  }

  /** `^p1 p2 ... pn$`: the pieces, in order, consume the whole of `s`.
      Without the `m` flag `$` matches only at the end of the input. */
  predicate MatchesAnchored(pattern: seq<Piece>, s: string)
    ensures MatchesAnchored(pattern, s) ==> |s| == PatternLength(pattern)
    decreases |pattern|
  {
    if pattern == [] then s == []
    else
      var n := pattern[0].count;
      n <= |s| && AllIn(pattern[0].cls, s[..n]) && MatchesAnchored(pattern[1..], s[n..])
  }

  /** The number of characters an anchored match of `pattern` consumes. */
  function PatternLength(pattern: seq<Piece>): nat
    decreases |pattern|
  {
    if pattern == [] then 0 else pattern[0].count + PatternLength(pattern[1..])
  }

  /** `[a-fA-F0-9]` */
  const HexClass: CharClass := Ranges([('a', 'f'), ('A', 'F'), ('0', '9')])

  /** `^0x[a-fA-F0-9]{40}$` */
  const AddressPattern: seq<Piece> := [Piece(Literal('0'), 1), Piece(Literal('x'), 1), Piece(HexClass, 40)]

  /** `isValidEthereumAddress(address)` */
  predicate IsValidEthereumAddress(address: string)
    ensures IsValidEthereumAddress(address) ==> |address| == 42
  {
    assert PatternLength(AddressPattern) == 42 by {
      var p := AddressPattern;
      assert p[1..][1..][1..] == [];
      assert PatternLength(p[1..][1..]) == 40;
      assert PatternLength(p[1..]) == 41;
    }
    MatchesAnchored(AddressPattern, address)
  }

  predicate IsHexDigit(c: char) {
    '0' <= c <= '9' || 'a' <= c <= 'f' || 'A' <= c <= 'F'
  }

  /** The plain description of an address: `0x` and forty hexadecimal digits. */
  predicate WellFormedAddress(s: string) {
    && |s| == 42
    && s[0] == '0' && s[1] == 'x'
    && forall i :: 2 <= i < 42 ==> IsHexDigit(s[i])
  }

  lemma HexClassIsHexDigit(c: char)
    ensures InClass(HexClass, c) <==> IsHexDigit(c)
  {
    if IsHexDigit(c) {
      var k := if 'a' <= c <= 'f' then 0 else if 'A' <= c <= 'F' then 1 else 2;
      assert HexClass.ranges[k].0 <= c <= HexClass.ranges[k].1;
    }
  }

  /** The forty-digit tail `[a-fA-F0-9]{40}$` accepts exactly forty hexadecimal digits. */
  lemma HexTailIff(t: string)
    ensures MatchesAnchored([Piece(HexClass, 40)], t)
        <==> |t| == 40 && forall i :: 0 <= i < 40 ==> IsHexDigit(t[i])
  {
    assert [Piece(HexClass, 40)][1..] == [];
    if |t| >= 40 {
      forall i | 0 <= i < 40 ensures InClass(HexClass, t[..40][i]) <==> IsHexDigit(t[i]) {
        HexClassIsHexDigit(t[i]);
      }
    }
  }

  /** The regular expression accepts exactly the well-formed addresses. */
  lemma ValidIff(s: string)
    ensures IsValidEthereumAddress(s) <==> WellFormedAddress(s)
  {
    var p := AddressPattern;
    var tail := [Piece(HexClass, 40)];
    assert p[1..] == [Piece(Literal('x'), 1)] + tail;
    assert p[1..][1..] == tail;
    if |s| >= 2 {
      var t := s[2..];
      assert s[1..][1..] == t;
      assert AllIn(Literal('0'), s[..1]) <==> s[0] == '0';
      assert AllIn(Literal('x'), s[1..][..1]) <==> s[1] == 'x';
      assert MatchesAnchored(p[1..], s[1..]) <==> s[1] == 'x' && MatchesAnchored(tail, t);
      assert IsValidEthereumAddress(s) <==> s[0] == '0' && MatchesAnchored(p[1..], s[1..]);
      HexTailIff(t);
      assert |t| == 40 <==> |s| == 42;
      if |t| == 40 {
        assert (forall i :: 0 <= i < 40 ==> IsHexDigit(t[i]))
           <==> (forall i :: 2 <= i < 42 ==> IsHexDigit(s[i])) by {
          assert forall i :: 0 <= i < 40 ==> t[i] == s[i + 2];
        }
      }
    } else if |s| == 1 {
      assert !MatchesAnchored(p[1..], s[1..]);
    }
  }

  /** The anchors reject the empty string. */
  lemma RejectsEmpty()
    ensures !IsValidEthereumAddress("")
  {
  }

  /** Without the `i` flag an upper-case `0X` prefix is rejected. */
  lemma RejectsUpperCasePrefix(s: string)
    requires |s| >= 2 && s[1] == 'X'
    ensures !IsValidEthereumAddress(s)
  {
    ValidIff(s);
  }

  /** Anything but 42 characters is rejected, 41 and 43 included. */
  lemma RejectsWrongLength(s: string)
    requires |s| != 42
    ensures !IsValidEthereumAddress(s)
  {
  }

  /** One non-hexadecimal character after the prefix is enough to reject. */
  lemma RejectsNonHex(s: string, i: nat)
    requires 2 <= i < |s| && !IsHexDigit(s[i])
    ensures !IsValidEthereumAddress(s)
  {
    ValidIff(s);
  }

  /** Lower-cases the letters `A`-`F` and leaves every other character alone. */
  function LowerHexLetters(s: string): (r: string)
    ensures |r| == |s|
    ensures forall i :: 0 <= i < |s| ==> (IsHexDigit(r[i]) <==> IsHexDigit(s[i]))
    ensures forall i :: 0 <= i < |s| ==> ('A' <= s[i] <= 'F' || r[i] == s[i])
    ensures forall i :: 0 <= i < |s| && 'A' <= s[i] <= 'F' ==> r[i] as int == s[i] as int - 'A' as int + 'a' as int
  {
    seq(|s|, i requires 0 <= i < |s| =>
      if 'A' <= s[i] <= 'F' then (s[i] as int - 'A' as int + 'a' as int) as char else s[i])
  }

  /** No EIP-55 checksum is checked: the case of the hexadecimal letters
      never changes whether an address is accepted. */
  lemma CaseOfHexLettersIrrelevant(s: string)
    ensures IsValidEthereumAddress(s) <==> IsValidEthereumAddress(LowerHexLetters(s))
  {
    ValidIff(s);
    ValidIff(LowerHexLetters(s));
  }

  /** A mixed-case address, `0xAbAb...Ab`, is accepted on syntax alone. */
  lemma AcceptsMixedCase()
    ensures IsValidEthereumAddress("0x" + seq(40, i => if i % 2 == 0 then 'A' else 'b'))
  {
    ValidIff("0x" + seq(40, i => if i % 2 == 0 then 'A' else 'b'));
  }
}
