/**
 * Laboratory 2: authenticating spies. A user name is formatted, a password
 * is "decrypted" by a character rotation with vowel padding, and the pair
 * must be one of the expected credentials.
 */
module Spies {
  import opened Wrappers
  import opened Strings

  /** The expected credentials: formatted user name to encrypted password. */
  const Agents: map<string, string> := map[
    "Chevy_Chase" := "i0J0u0j0u0J0Zys0r0{",
    "Dan_Aykroyd" := "i0N00h00^0{b",
    "John_Belushi" := "j0J0sc0v0w0L0"]

  /** Rotation for characters at even and at odd positions. */
  const Rot7: int := 7
  const Rot9: int := 9

  const Vowels: string := "AEIOUaeiou"

  /** rotate_ascii: a code above 127 is folded back by `% 127` and moved up
      by 31; smaller codes are kept. */
  function RotateAscii(val: int): (r: int)
    ensures val <= 127 ==> r == val
    ensures val > 127 ==> 31 <= r <= 157
    ensures 127 < val < 254 ==> r == val - 96
  {
    if val > 127 then (val % 127) + 31 else val
  }

  /** get_shifted_unicode: +7 at even positions, +9 at odd ones, then
      rotate_ascii. Whatever the character, the code lies in 7..157. */
  function ShiftedUnicode(letter: char, index: nat): (r: int)
    ensures 7 <= r <= 157
    ensures letter as int <= 127 ==> r <= 127
    ensures letter as int + Rot9 <= 127 ==> r == letter as int + (if index % 2 == 0 then Rot7 else Rot9)
  {
    if index % 2 == 0 then RotateAscii(letter as int + Rot7) else RotateAscii(letter as int + Rot9)
  }

  /** What the loop emits for the character `ch` at position `index`: a vowel
      comes out as "0", the shifted character, "0"; any other character as
      the shifted character alone. */
  function Piece(ch: char, index: nat): (r: string)
    ensures |r| == if ch in Vowels then 3 else 1
    ensures r[|r| / 2] == ShiftedUnicode(ch, index) as char
    ensures ch in Vowels ==> r[0] == '0' && r[2] == '0'
  {
    var shifted := ShiftedUnicode(ch, index) as char;
    if ch in Vowels then ['0', shifted, '0'] else [shifted]
  }

  function VowelCount(p: string): nat
    decreases |p|
  {
    if |p| == 0 then 0 else VowelCount(p[..|p| - 1]) + if p[|p| - 1] in Vowels then 1 else 0
  }

  /** decrypt_password as a specification: the pieces of the characters, in
      order. Every vowel adds two characters; every output code is at most
      157, and at most 127 when the password is ASCII. */
  function Decrypted(p: string): (r: string)
    ensures |r| == |p| + 2 * VowelCount(p)
    decreases |p|
  {
    if |p| == 0 then "" else Decrypted(p[..|p| - 1]) + Piece(p[|p| - 1], |p| - 1)
  }

  /** Every output code is at most 157, and at most 127 when the password
      is ASCII. */
  lemma {:induction false} DecryptedCodes(p: string)
    ensures forall i :: 0 <= i < |Decrypted(p)| ==> 7 <= Decrypted(p)[i] as int <= 157
    ensures (forall i :: 0 <= i < |p| ==> p[i] as int <= 127) ==>
      forall i :: 0 <= i < |Decrypted(p)| ==> Decrypted(p)[i] as int <= 127
    decreases |p|
  {
    if |p| > 0 {
      var init := p[..|p| - 1];
      assert forall i :: 0 <= i < |init| ==> init[i] == p[i];
      DecryptedCodes(init);
      var piece := Piece(p[|p| - 1], |p| - 1);
      assert forall i :: 0 <= i < |piece| ==> piece[i] == '0' || piece[i] == ShiftedUnicode(p[|p| - 1], |p| - 1) as char;
    }
  }

  /** The decryption of a prefix is a prefix of the decryption. */
  lemma {:induction false} DecryptedOfPrefix(p: string, k: nat)
    requires k <= |p|
    ensures Decrypted(p[..k]) <= Decrypted(p)
    decreases |p| - k
  {
    if k < |p| {
      var init := p[..|p| - 1];
      assert init[..k] == p[..k];
      DecryptedOfPrefix(init, k);
    } else {
      assert p[..k] == p;
    }
  }

  /** Character `i` of the password is emitted at offset i plus twice the
      number of vowels before it. */
  lemma DecryptedLayout(p: string, i: nat)
    requires i < |p|
    ensures var o := i + 2 * VowelCount(p[..i]);
      o + |Piece(p[i], i)| <= |Decrypted(p)| && Decrypted(p)[o..o + |Piece(p[i], i)|] == Piece(p[i], i)
  {
    var a, piece := Decrypted(p[..i]), Piece(p[i], i);
    var d := Decrypted(p);
    DecryptedStep(p, i);
    DecryptedOfPrefix(p, i + 1);
    PrefixSlice(a, piece, d);
  }

  lemma PrefixSlice<T>(a: seq<T>, b: seq<T>, d: seq<T>)
    requires a + b <= d
    ensures |a| + |b| <= |d| && d[|a|..|a| + |b|] == b
  {
    assert d[..|a| + |b|] == a + b;
  }

  /** The loop of decrypt_password. */
  method DecryptPassword(password: string) returns (decrypted: string)
    ensures decrypted == Decrypted(password)
  {
    decrypted := "";
    for idx := 0 to |password|
      invariant decrypted == Decrypted(password[..idx])
    {
      var ch := password[idx];
      var decryptedCh := ShiftedUnicode(ch, idx) as char;
      DecryptedStep(password, idx);
      if ch in Vowels {
        var newStr := ['0'] + [decryptedCh] + ['0'];
        decrypted := decrypted + newStr;
      } else {
        decrypted := decrypted + [decryptedCh];
      }
    }
    assert password[..|password|] == password;
  }

  lemma DecryptedStep(p: string, k: nat)
    requires k < |p|
    ensures Decrypted(p[..k + 1]) == Decrypted(p[..k]) + Piece(p[k], k)
  {
    assert p[..k + 1][..k] == p[..k];
  }

  /** Decrypted(p) from the successive decryptions of its prefixes. */
  lemma DecryptionChain(p: string, ds: seq<string>)
    requires |ds| == |p| + 1 && ds[0] == ""
    requires forall k :: 0 <= k < |p| ==> ds[k + 1] == ds[k] + Piece(p[k], k)
    ensures Decrypted(p) == ds[|p|]
  {
    for k := 0 to |p|
      invariant Decrypted(p[..k]) == ds[k]
    {
      DecryptedStep(p, k);
    }
    assert p[..|p|] == p;
  }

  lemma ChevyChaseCipher()
    ensures Decrypted("bAnanASplit") == "i0J0u0j0u0J0Zys0r0{"
  {
    DecryptionChain("bAnanASplit", ["", "i", "i0J0", "i0J0u", "i0J0u0j0", "i0J0u0j0u", "i0J0u0j0u0J0", "i0J0u0j0u0J0Z", "i0J0u0j0u0J0Zy", "i0J0u0j0u0J0Zys", "i0J0u0j0u0J0Zys0r0", "i0J0u0j0u0J0Zys0r0{"]);
  }

  lemma DanAykroydCipher()
    ensures Decrypted("bEaUtY") == "i0N00h00^0{b"
  {
    DecryptionChain("bEaUtY", ["", "i", "i0N0", "i0N00h0", "i0N00h00^0", "i0N00h00^0{", "i0N00h00^0{b"]);
  }

  lemma JohnBelushiCipher()
    ensures Decrypted("cAlZonE") == "j0J0sc0v0w0L0"
  {
    DecryptionChain("cAlZonE", ["", "j", "j0J0", "j0J0s", "j0J0sc", "j0J0sc0v0", "j0J0sc0v0w", "j0J0sc0v0w0L0"]);
  }

  /** One formatted name part: lower-cased, then capitalised. Only the case
      of letters changes. */
  function FormattedPart(s: string): (r: string)
    ensures |r| == |s|
    ensures Lower(r) == Lower(s)
    ensures |r| > 0 ==> !('a' <= r[0] <= 'z')
    ensures forall i :: 0 < i < |r| ==> !('A' <= r[i] <= 'Z')
  {
    Capitalize(Lower(s))
  }

  function FormattedParts(parts: seq<string>): (r: seq<string>)
    ensures |r| == |parts| && forall i :: 0 <= i < |parts| ==> r[i] == FormattedPart(parts[i])
  {
    seq(|parts|, i requires 0 <= i < |parts| => FormattedPart(parts[i]))
  }

  /** format_username as a specification: the formatted parts joined by "_". */
  function FormattedUsername(parts: seq<string>): (u: string)
    ensures |parts| >= 1 ==> FormattedPart(parts[0]) <= u
  {
    Join(FormattedParts(parts), '_')
  }

  /** format_username: overwrites every part with its formatted form, then
      joins the parts with "_". */
  method FormatUsername(username: array<string>) returns (joined: string)
    modifies username
    ensures username[..] == FormattedParts(old(username[..]))
    ensures joined == FormattedUsername(old(username[..]))
  {
    ghost var given := username[..];
    for val := 0 to username.Length
      invariant forall i :: 0 <= i < val ==> username[i] == FormattedPart(given[i])
      invariant forall i :: val <= i < username.Length ==> username[i] == given[i]
    {
      var tmp := Lower(username[val]);
      username[val] := Capitalize(tmp);
      assert username[val] == FormattedPart(given[val]);
    }
    AllPartsFormatted(given, username[..]);
    joined := Join(username[..], '_');
  }

  /** Parts formatted one by one are the formatted parts. */
  lemma AllPartsFormatted(parts: seq<string>, done: seq<string>)
    requires |done| == |parts| && forall i :: 0 <= i < |parts| ==> done[i] == FormattedPart(parts[i])
    ensures done == FormattedParts(parts)
  {
  }

  /** Formatting twice is formatting once. */
  lemma FormattedPartIdempotent(s: string)
    ensures FormattedPart(FormattedPart(s)) == FormattedPart(s)
  {
  }

  /** A formatted name splits on "_" back into its formatted parts when no
      part holds an underscore. */
  lemma FormattedUsernameSplits(parts: seq<string>)
    requires |parts| >= 1
    requires forall i :: 0 <= i < |parts| ==> '_' !in parts[i]
    ensures Split(FormattedUsername(parts), '_') == FormattedParts(parts)
  {
    var fs := FormattedParts(parts);
    assert forall i :: 0 <= i < |fs| ==> '_' !in fs[i];
    SplitJoin(fs, '_');
  }

  predicate IsAgent(username: string, password: string)
  {
    username in Agents && Agents[username] == password
  }

  /** authenticate_user: the first two whitespace-separated words form the
      user name, the third is decrypted; the pair must be an expected
      credential. With fewer than three words the source raises an
      IndexError, modelled as None. */
  function AuthenticateUser(credentials: string): (r: Option<bool>)
    ensures r.None? <==> |Words(credentials)| < 3
  {
    var credentialsList := Words(credentials);
    if |credentialsList| < 3 then None
    else
      var username := FormattedUsername([credentialsList[0], credentialsList[1]]);
      var password := Decrypted(credentialsList[2]);
      Some(IsAgent(username, password))
  }

  /** Three words separated by single blanks authenticate exactly when the
      formatted name and the decrypted third word are an expected pair. */
  lemma AuthenticateThreeWords(given: string, surname: string, cipher: string)
    requires IsWord(given) && IsWord(surname) && IsWord(cipher)
    ensures AuthenticateUser(given + " " + surname + " " + cipher)
      == Some(IsAgent(FormattedUsername([given, surname]), Decrypted(cipher)))
  {
    ThreeWords(given, surname, cipher);
  }

  /** Three words separated by single blanks split into those words. */
  lemma ThreeWords(given: string, surname: string, cipher: string)
    requires IsWord(given) && IsWord(surname) && IsWord(cipher)
    ensures Words(given + " " + surname + " " + cipher) == [given, surname, cipher]
  {
    var ws := [given, surname, cipher];
    assert forall i :: 0 <= i < |ws| ==> IsWord(ws[i]);
    WordsOfJoin(ws);
    JoinThree(given, surname, cipher, ' ');
  }

  /** FormattedPart(s) is t when t is s with its first character upper
      case and the rest lower case. */
  lemma FormattedPartOf(s: string, t: string)
    requires |s| == |t| > 0
    requires t[0] == UpperChar(LowerChar(s[0]))
    requires forall i :: 0 < i < |s| ==> t[i] == LowerChar(s[i])
    ensures FormattedPart(s) == t
  {
  }

  lemma FormattedTwoParts(given: string, surname: string)
    ensures FormattedUsername([given, surname]) == FormattedPart(given) + "_" + FormattedPart(surname)
  {
    var fs := FormattedParts([given, surname]);
    assert fs == [FormattedPart(given)] + [FormattedPart(surname)];
    JoinCons(FormattedPart(given), [FormattedPart(surname)], '_');
  }

  /** The user name of a two-part name, given the formatted parts. */
  lemma FormattedName(given: string, surname: string, g: string, s: string)
    requires FormattedPart(given) == g && FormattedPart(surname) == s
    ensures FormattedUsername([given, surname]) == g + "_" + s
  {
    FormattedTwoParts(given, surname);
  }

  lemma VowelCountAtMostLength(p: string)
    ensures VowelCount(p) <= |p|
  {
  }

  /** Credentials that are three words and an expected pair get in; three
      words whose decrypted cipher is not the expected password do not. */
  lemma AgentAuthenticates(given: string, surname: string, cipher: string, username: string)
    requires IsWord(given) && IsWord(surname) && IsWord(cipher)
    requires FormattedUsername([given, surname]) == username && username in Agents
    ensures AuthenticateUser(given + " " + surname + " " + cipher) == Some(Decrypted(cipher) == Agents[username])
  {
    AuthenticateThreeWords(given, surname, cipher);
  }

  /** The cipher words below hold no whitespace. */
  lemma CipherWords()
    ensures IsWord("bAnanASplit") && IsWord("bEaUtY") && IsWord("cAlZonE") && IsWord("split")
  {
  }

  /** The spelled-out name parts below are words and format as shown. */
  lemma PartChevy(s: string)
    requires s == "chevy"
    ensures FormattedPart(s) == "Chevy" && IsWord(s)
  {
    FormattedPartOf(s, "Chevy");
  }

  lemma PartChase(s: string)
    requires s == "chase"
    ensures FormattedPart(s) == "Chase" && IsWord(s)
  {
    FormattedPartOf(s, "Chase");
  }

  lemma PartDan(s: string)
    requires s == "Dan"
    ensures FormattedPart(s) == "Dan" && IsWord(s)
  {
    FormattedPartOf(s, "Dan");
  }

  lemma PartAykroyd(s: string)
    requires s == "AYKROYD"
    ensures FormattedPart(s) == "Aykroyd" && IsWord(s)
  {
    FormattedPartOf(s, "Aykroyd");
  }

  lemma PartJohn(s: string)
    requires s == "john"
    ensures FormattedPart(s) == "John" && IsWord(s)
  {
    FormattedPartOf(s, "John");
  }

  lemma PartBelushi(s: string)
    requires s == "Belushi"
    ensures FormattedPart(s) == "Belushi" && IsWord(s)
  {
    FormattedPartOf(s, "Belushi");
  }

  /** The three agents get in with their user names, written in any case,
      and their cipher words; a wrong cipher word is refused. */
  lemma ChevyChaseName(given: string, surname: string)
    requires given == "chevy" && surname == "chase"
    ensures FormattedUsername([given, surname]) == "Chevy_Chase"
    ensures IsWord(given) && IsWord(surname)
  {
    PartChevy(given);
    PartChase(surname);
    FormattedName(given, surname, "Chevy", "Chase");
  }

  lemma ChevyChaseAuthenticates(given: string, surname: string, cipher: string)
    requires given == "chevy" && surname == "chase" && cipher == "bAnanASplit"
    ensures AuthenticateUser(given + " " + surname + " " + cipher) == Some(true)
  {
    ChevyChaseName(given, surname);
    CipherWords();
    ChevyChaseCipher();
    AgentAuthenticates(given, surname, cipher, "Chevy_Chase");
  }

  lemma DanAykroydName(given: string, surname: string)
    requires given == "Dan" && surname == "AYKROYD"
    ensures FormattedUsername([given, surname]) == "Dan_Aykroyd"
    ensures IsWord(given) && IsWord(surname)
  {
    PartDan(given);
    PartAykroyd(surname);
    FormattedName(given, surname, "Dan", "Aykroyd");
  }

  lemma DanAykroydAuthenticates(given: string, surname: string, cipher: string)
    requires given == "Dan" && surname == "AYKROYD" && cipher == "bEaUtY"
    ensures AuthenticateUser(given + " " + surname + " " + cipher) == Some(true)
  {
    DanAykroydName(given, surname);
    CipherWords();
    DanAykroydCipher();
    AgentAuthenticates(given, surname, cipher, "Dan_Aykroyd");
  }

  lemma JohnBelushiName(given: string, surname: string)
    requires given == "john" && surname == "Belushi"
    ensures FormattedUsername([given, surname]) == "John_Belushi"
    ensures IsWord(given) && IsWord(surname)
  {
    PartJohn(given);
    PartBelushi(surname);
    FormattedName(given, surname, "John", "Belushi");
  }

  lemma JohnBelushiAuthenticates(given: string, surname: string, cipher: string)
    requires given == "john" && surname == "Belushi" && cipher == "cAlZonE"
    ensures AuthenticateUser(given + " " + surname + " " + cipher) == Some(true)
  {
    JohnBelushiName(given, surname);
    CipherWords();
    JohnBelushiCipher();
    AgentAuthenticates(given, surname, cipher, "John_Belushi");
  }

  lemma WrongCipherRefused(given: string, surname: string, cipher: string)
    requires given == "chevy" && surname == "chase" && cipher == "split"
    ensures AuthenticateUser(given + " " + surname + " " + cipher) == Some(false)
  {
    ChevyChaseName(given, surname);
    CipherWords();
    assert Decrypted(cipher) != Agents["Chevy_Chase"] by {
      VowelCountAtMostLength(cipher);
    }
    AgentAuthenticates(given, surname, cipher, "Chevy_Chase");
  }

  /** Fewer than three words: the source fails with an IndexError. */
  lemma TooFewWords(given: string, surname: string)
    requires IsWord(given) && IsWord(surname)
    ensures AuthenticateUser(given + " " + surname) == None
  {
    WordsOfJoin([given, surname]);
    assert Join([given, surname], ' ') == given + " " + surname by {
      JoinCons(given, [surname], ' ');
      assert [given] + [surname] == [given, surname];
    }
  }
}
