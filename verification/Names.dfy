// File names: sanitising, extensions, and the names tried on a collision.
module Names {
  import opened Paths

  const FILENAME_FALLBACK := "_"
  const FILENAME_MAX_LENGTH: nat := 255
  const COLLISION_MAX_RETRIES: nat := 10
  const STAMP_LENGTH: nat := 15

  predicate SafeChar(c: char) {
    'a' <= c <= 'z' || 'A' <= c <= 'Z' || '0' <= c <= '9' || c == '_' || c == '.' || c == '-'
  }

  predicate Ascii(s: string) {
    forall i :: 0 <= i < |s| ==> s[i] as int < 0x80
  }

  // The names the server stores files and directories under.
  predicate SafeName(s: string) {
    && s != "" && s != "." && s != ".." && |s| <= FILENAME_MAX_LENGTH
    && forall i :: 0 <= i < |s| ==> SafeChar(s[i])
  }

  // ---- SanitizeFilename ----

  predicate ByteIn(s: string, i: nat, lo: int, hi: int) {
    i < |s| && lo <= s[i] as int <= hi
  }

  // The width of the first rune of a byte string, as in section 3 of RFC 3629;
  // a byte that starts no valid sequence is a rune of width 1.
  function RuneWidth(s: string): (w: nat)
    requires s != ""
    ensures 1 <= w <= |s|
    ensures s[0] as int < 0x80 ==> w == 1
  {
    var second := ByteIn(s, 1, 0x80, 0xBF);
    var third := ByteIn(s, 2, 0x80, 0xBF);
    var fourth := ByteIn(s, 3, 0x80, 0xBF);
    if ByteIn(s, 0, 0xC2, 0xDF) && second then 2
    else if ByteIn(s, 0, 0xE0, 0xE0) && ByteIn(s, 1, 0xA0, 0xBF) && third then 3
    else if ByteIn(s, 0, 0xED, 0xED) && ByteIn(s, 1, 0x80, 0x9F) && third then 3
    else if ByteIn(s, 0, 0xE1, 0xEF) && s[0] as int != 0xED && second && third then 3
    else if ByteIn(s, 0, 0xF0, 0xF0) && ByteIn(s, 1, 0x90, 0xBF) && third && fourth then 4
    else if ByteIn(s, 0, 0xF1, 0xF3) && second && third && fourth then 4
    else if ByteIn(s, 0, 0xF4, 0xF4) && ByteIn(s, 1, 0x80, 0x8F) && third && fourth then 4
    else 1
  }

  // Every rune outside the allowed set becomes one underscore.
  function ReplaceUnsafe(s: string): (r: string)
    ensures forall i :: 0 <= i < |r| ==> SafeChar(r[i])
    ensures s != "" ==> r != ""
    ensures |r| <= |s|
  {
    if s == "" then ""
    else [if SafeChar(s[0]) then s[0] else '_'] + ReplaceUnsafe(s[RuneWidth(s)..])
  }

  function SanitizeFilename(name: string): (r: string)
    ensures SafeName(r)
  {
    if name == "" then FILENAME_FALLBACK
    else
      var sanitized := ReplaceUnsafe(name);
      if sanitized == "." || sanitized == ".." then FILENAME_FALLBACK
      else if |sanitized| > FILENAME_MAX_LENGTH then sanitized[..FILENAME_MAX_LENGTH]
      else sanitized
  }

  lemma {:induction false} ReplaceAscii(s: string)
    requires Ascii(s)
    ensures |ReplaceUnsafe(s)| == |s|
    ensures forall i :: 0 <= i < |s| ==> ReplaceUnsafe(s)[i] == if SafeChar(s[i]) then s[i] else '_'
  {
    if s != "" {
      ReplaceAscii(s[1..]);
      forall i | 1 <= i < |s| ensures ReplaceUnsafe(s)[i] == if SafeChar(s[i]) then s[i] else '_' {
        assert ReplaceUnsafe(s)[i] == ReplaceUnsafe(s[1..])[i - 1];
      }
    }
  }

  // On ASCII names sanitising works character by character.
  lemma SanitizeAscii(name: string)
    requires name != "" && name != "." && name != ".."
    requires Ascii(name)
    ensures var r := SanitizeFilename(name);
            && |r| == (if |name| <= 255 then |name| else 255)
            && forall i :: 0 <= i < |r| ==> r[i] == if SafeChar(name[i]) then name[i] else '_'
  {
    ReplaceAscii(name);
    var r := ReplaceUnsafe(name);
    assert r[0] == '.' ==> name[0] == '.';
    assert |r| == 2 && r[1] == '.' ==> name[1] == '.';
  }

  // The code points that have an encoding.
  predicate IsRune(c: int) {
    0 <= c < 0x11_0000 && !(0xD800 <= c < 0xE000)
  }

  // The bytes of a code point, as in section 3 of RFC 3629.
  function Utf8(c: int): (s: string)
    requires IsRune(c)
    ensures 1 <= |s| <= 4
  {
    if c < 0x80 then [c as char]
    else if c < 0x800 then [(0xC0 + c / 0x40) as char, (0x80 + c % 0x40) as char]
    else if c < 0x1_0000 then
      [(0xE0 + c / 0x1000) as char, (0x80 + c / 0x40 % 0x40) as char, (0x80 + c % 0x40) as char]
    else [(0xF0 + c / 0x4_0000) as char, (0x80 + c / 0x1000 % 0x40) as char,
          (0x80 + c / 0x40 % 0x40) as char, (0x80 + c % 0x40) as char]
  }

  function Encoded(runes: seq<int>): string
    requires forall i :: 0 <= i < |runes| ==> IsRune(runes[i])
  {
    if runes == [] then "" else Utf8(runes[0]) + Encoded(runes[1..])
  }

  lemma RuneWidthOfUtf8(c: int, rest: string)
    requires IsRune(c)
    ensures RuneWidth(Utf8(c) + rest) == |Utf8(c)|
    ensures c >= 0x80 ==> !SafeChar(Utf8(c)[0])
  {
    var s := Utf8(c) + rest;
    assert forall i :: 0 <= i < |Utf8(c)| ==> s[i] == Utf8(c)[i];
  }

  // The character that stands for a code point in a name.
  function SafeRune(c: int): char {
    if 0 <= c < 0x80 && SafeChar(c as char) then c as char else '_'
  }

  lemma {:induction false} ReplaceRunes(runes: seq<int>)
    requires forall i :: 0 <= i < |runes| ==> IsRune(runes[i])
    ensures |ReplaceUnsafe(Encoded(runes))| == |runes|
    ensures forall i :: 0 <= i < |runes| ==> ReplaceUnsafe(Encoded(runes))[i] == SafeRune(runes[i])
  {
    if runes != [] {
      var first, rest := Utf8(runes[0]), Encoded(runes[1..]);
      RuneWidthOfUtf8(runes[0], rest);
      assert (first + rest)[|first|..] == rest;
      ReplaceRunes(runes[1..]);
    }
  }

  // On UTF-8 names sanitising works code point by code point: each one outside
  // the allowed set, whatever its number of bytes, becomes one underscore.
  lemma SanitizeUtf8(runes: seq<int>)
    requires forall i :: 0 <= i < |runes| ==> IsRune(runes[i])
    requires Encoded(runes) != "" && Encoded(runes) != "." && Encoded(runes) != ".."
    ensures var r := SanitizeFilename(Encoded(runes));
            && |r| == (if |runes| <= 255 then |runes| else 255)
            && forall i :: 0 <= i < |r| ==> r[i] == SafeRune(runes[i])
  {
    ReplaceRunes(runes);
    var r := ReplaceUnsafe(Encoded(runes));
    assert forall i :: 0 <= i < |runes| && r[i] == '.' ==> runes[i] == 46;
    if 1 <= |runes| <= 2 && forall i :: 0 <= i < |runes| ==> runes[i] == 46 {
      DotsEncoded(runes);
    }
  }

  lemma DotsEncoded(runes: seq<int>)
    requires 1 <= |runes| <= 2 && forall i :: 0 <= i < |runes| ==> runes[i] == 46
    ensures Encoded(runes) == if |runes| == 1 then "." else ".."
  {
    assert Utf8(46) == ".";
    if |runes| == 1 {
      assert Encoded(runes[1..]) == "" && Encoded(runes) == "." + "";
    } else {
      assert runes[1..][1..] == [] && Encoded(runes[1..]) == "." + "";
    }
  }

  // Names that are no names at all become an underscore.
  lemma SanitizeReserved()
    ensures SanitizeFilename("") == SanitizeFilename(".") == SanitizeFilename("..") == "_"
  {
    assert ReplaceUnsafe("") == "" && "."[1..] == "" && ".."[1..] == ".";
    assert ReplaceUnsafe(".") == "." && ReplaceUnsafe("..") == "..";
  }

  // Sanitising keeps exactly the safe names, and so sanitising twice is
  // sanitising once.
  lemma SanitizeFixpoint(name: string)
    ensures SanitizeFilename(name) == name <==> SafeName(name)
    ensures SanitizeFilename(SanitizeFilename(name)) == SanitizeFilename(name)
  {
    if SafeName(name) {
      SafeIsFixed(name);
    }
    SafeIsFixed(SanitizeFilename(name));
  }

  lemma SafeIsFixed(name: string)
    requires SafeName(name)
    ensures SanitizeFilename(name) == name
  {
    ReplaceAscii(name);
    assert ReplaceUnsafe(name) == name;
  }

  lemma SafeNameIsPlain(s: string)
    requires SafeName(s)
    ensures Plain(s) && '\0' !in s
  {
  }

  // ---- ValidateExtension ----

  // filepath.Ext: from the last dot of the last component
  function Ext(s: string): string {
    if s == "" || s[|s| - 1] == '/' then ""
    else if s[|s| - 1] == '.' then "."
    else
      var e := Ext(s[..|s| - 1]);
      if e == "" then "" else e + [s[|s| - 1]]
  }

  // The extension is the end of the name from its last dot on, and there is none
  // exactly when no dot follows the last slash.
  lemma {:induction false} ExtMeans(s: string)
    ensures var e := Ext(s);
            && |e| <= |s| && s[|s| - |e|..] == e
            && (e != "" ==> e[0] == '.' && forall i :: 1 <= i < |e| ==> e[i] != '.' && e[i] != '/')
            && (e == "" ==> forall i :: 0 <= i < |s| && s[i] == '.' ==> exists j :: i < j < |s| && s[j] == '/')
  {
    if s != "" && s[|s| - 1] != '/' && s[|s| - 1] != '.' {
      var front := s[..|s| - 1];
      ExtMeans(front);
      if Ext(front) == "" {
        forall i | 0 <= i < |s| && s[i] == '.'
          ensures exists j :: i < j < |s| && s[j] == '/'
        {
          assert front[i] == '.';
          var j :| i < j < |front| && front[j] == '/';
          assert s[j] == '/';
        }
      } else {
        assert s[|s| - |Ext(s)|..] == front[|front| - |Ext(front)|..] + [s[|s| - 1]];
      }
    }
  }

  function Lower(c: char): char {
    if 'A' <= c <= 'Z' then (c as int + 32) as char else c
  }

  // What the first rune folds to, and its width. Outside ASCII two runes fold to
  // ASCII letters: the Kelvin sign to k and the long s to s.
  function FirstFolded(s: string): (r: (char, nat))
    requires s != ""
    ensures 1 <= r.1 <= |s|
  {
    if ByteIn(s, 0, 0xE2, 0xE2) && ByteIn(s, 1, 0x84, 0x84) && ByteIn(s, 2, 0xAA, 0xAA) then ('k', 3)
    else if ByteIn(s, 0, 0xC5, 0xC5) && ByteIn(s, 1, 0xBF, 0xBF) then ('s', 2)
    else (Lower(s[0]), 1)
  }

  // strings.EqualFold of an ASCII string, as the extension of a safe name is, and
  // any other.
  predicate EqualFold(a: string, b: string) {
    if a == "" || b == "" then a == b
    else
      var (c, width) := FirstFolded(b);
      Lower(a[0]) == c && EqualFold(a[1..], b[width..])
  }

  // ASCII strings are equal but for case exactly when their characters are. A
  // longer string matches only with a Kelvin sign or a long s in it.
  lemma {:induction false} EqualFoldMeans(a: string, b: string)
    requires Ascii(a)
    ensures Ascii(b) ==>
      (EqualFold(a, b) <==> |a| == |b| && forall i :: 0 <= i < |a| ==> Lower(a[i]) == Lower(b[i]))
    ensures EqualFold(a, b) ==> |a| <= |b| <= 3 * |a|
    ensures EqualFold(a, b) && |a| == |b| ==> Ascii(b)
    decreases |a|
  {
    if a != "" && b != "" {
      var (c, width) := FirstFolded(b);
      EqualFoldMeans(a[1..], b[width..]);
      if width == 1 {
        CharByChar(a, b);
      }
    }
  }

  lemma CharByChar(a: string, b: string)
    requires a != "" && b != ""
    ensures (|a| == |b| && forall i :: 0 <= i < |a| ==> Lower(a[i]) == Lower(b[i]))
            <==> Lower(a[0]) == Lower(b[0]) && |a[1..]| == |b[1..]|
                 && forall i :: 0 <= i < |a[1..]| ==> Lower(a[1..][i]) == Lower(b[1..][i])
    ensures Ascii(b) <==> b[0] as int < 0x80 && Ascii(b[1..])
  {
    assert forall i :: 0 < i < |a| ==> a[i] == a[1..][i - 1];
    assert forall i :: 0 < i < |b| ==> b[i] == b[1..][i - 1];
  }

  predicate ExtAllowed(filename: string, allowed: seq<string>) {
    allowed == [] || exists i :: 0 <= i < |allowed| && EqualFold(Ext(filename), allowed[i])
  }

  // The same character, or a letter and its other case.
  predicate SameLetter(c: char, d: char) {
    var x, y := c as int, d as int;
    x == y || (65 <= x <= 90 && y == x + 32) || (65 <= y <= 90 && x == y + 32)
  }

  predicate SameButCase(a: string, b: string) {
    |a| == |b| && forall i :: 0 <= i < |a| ==> SameLetter(a[i], b[i])
  }

  // The extension of the name starts at k: at its last dot, or at the end if no
  // dot follows the last slash.
  predicate ExtensionAt(name: string, k: nat) {
    && k <= |name| && (forall i :: k < i < |name| ==> name[i] != '.' && name[i] != '/')
    && if k < |name| then name[k] == '.'
       else forall i :: 0 <= i < |name| && name[i] == '.' ==> exists j :: i < j < |name| && name[j] == '/'
  }

  // The list is empty or holds the extension in some case.
  ghost predicate Listed(name: string, allowed: seq<string>) {
    || allowed == []
    || exists k: nat, i: nat :: ExtensionAt(name, k) && i < |allowed| && SameButCase(name[k..], allowed[i])
  }

  predicate AllAscii(names: seq<string>) {
    forall i :: 0 <= i < |names| ==> Ascii(names[i])
  }

  lemma {:induction false} ExtensionStarts(name: string)
    ensures |Ext(name)| <= |name|
    ensures ExtensionAt(name, |name| - |Ext(name)|) && name[|name| - |Ext(name)|..] == Ext(name)
  {
    ExtMeans(name);
    var k, e := |name| - |Ext(name)|, Ext(name);
    assert forall i :: k <= i < |name| ==> name[i] == e[i - k];
  }

  lemma OneExtension(name: string, k: nat, m: nat)
    requires ExtensionAt(name, k) && ExtensionAt(name, m)
    ensures k == m
  {
    if k < m {
      NoLaterStart(name, k, m);
    } else if m < k {
      NoLaterStart(name, m, k);
    }
  }

  lemma NoLaterStart(name: string, k: nat, m: nat)
    requires ExtensionAt(name, k) && k < m <= |name|
    ensures !ExtensionAt(name, m)
  {
  }

  lemma FoldsAsCase(a: string, b: string)
    requires Ascii(a) && Ascii(b)
    ensures EqualFold(a, b) <==> SameButCase(a, b)
  {
    EqualFoldMeans(a, b);
    if |a| == |b| {
      forall i | 0 <= i < |a|
        ensures Lower(a[i]) == Lower(b[i]) <==> SameLetter(a[i], b[i])
      {
      }
    }
  }

  // For ASCII names and lists the check is the one on characters.
  lemma AllowedIfListed(name: string, allowed: seq<string>)
    requires Ascii(name) && AllAscii(allowed)
    ensures ExtAllowed(name, allowed) <==> Listed(name, allowed)
  {
    ExtensionStarts(name);
    var at: nat := |name| - |Ext(name)|;
    forall i | 0 <= i < |allowed|
      ensures EqualFold(Ext(name), allowed[i]) <==> SameButCase(Ext(name), allowed[i])
    {
      assert forall j :: 0 <= j < |Ext(name)| ==> Ext(name)[j] == name[at + j];
      FoldsAsCase(Ext(name), allowed[i]);
    }
    forall k: nat | ExtensionAt(name, k)
      ensures k == at
    {
      OneExtension(name, k, at);
    }
    if i :| 0 <= i < |allowed| && EqualFold(Ext(name), allowed[i]) {
      assert ExtensionAt(name, at) && SameButCase(name[at..], allowed[i]);
    }
  }

  method ValidateExtension(filename: string, allowed: seq<string>) returns (ok: bool)
    ensures ok == ExtAllowed(filename, allowed)
    ensures Ascii(filename) && AllAscii(allowed) ==> (ok <==> Listed(filename, allowed))
  {
    if Ascii(filename) && AllAscii(allowed) {
      AllowedIfListed(filename, allowed);
    }
    if |allowed| == 0 {
      return true;
    }
    var ext := Ext(filename);
    for i := 0 to |allowed|
      invariant forall j :: 0 <= j < i ==> !EqualFold(ext, allowed[j])
    {
      if EqualFold(ext, allowed[i]) {
        return true;
      }
    }
    return false;
  }

  lemma SafeNameIsAscii(s: string)
    requires SafeName(s)
    ensures Ascii(s)
  {
  }

  // ---- Collision names ----

  // The shape of time.Now().Format("20060102-150405").
  predicate IsStamp(s: string) {
    |s| == STAMP_LENGTH && forall i :: 0 <= i < |s| ==> '0' <= s[i] <= '9' || s[i] == '-'
  }

  function Stamped(stamp: string, name: string): string {
    stamp + "_" + name
  }

  lemma {:induction false} ExtAfterDotFree(prefix: string, s: string)
    requires '.' !in prefix && '/' !in prefix && '/' !in s
    ensures Ext(prefix + s) == Ext(s)
    decreases |prefix| + |s|
  {
    var all := prefix + s;
    if s != "" {
      assert all[|all| - 1] == s[|s| - 1];
      assert all[..|all| - 1] == prefix + s[..|s| - 1];
      if s[|s| - 1] != '.' {
        ExtAfterDotFree(prefix, s[..|s| - 1]);
      }
    } else if prefix != "" {
      assert all == prefix && all[|all| - 1] != '.';
      assert all[..|all| - 1] == prefix[..|prefix| - 1] + "";
      ExtAfterDotFree(prefix[..|prefix| - 1], "");
    }
  }

  // A timestamp in front of a name keeps it an ordinary name with the same
  // extension, so a name that passed the extension check still passes it.
  lemma StampedKeepsExtension(stamp: string, name: string)
    requires IsStamp(stamp) && SafeName(name)
    ensures Plain(Stamped(stamp, name)) && '\0' !in Stamped(stamp, name)
    ensures Ext(Stamped(stamp, name)) == Ext(name)
    ensures Stamped(stamp, name) != name
    ensures var s := Stamped(stamp, name);
            |s| == 16 + |name| && s[..15] == stamp && s[15] == '_' && s[16..] == name
  {
    var prefix := stamp + "_";
    assert Stamped(stamp, name) == prefix + name;
    assert forall i :: 0 <= i < |stamp| ==> stamp[i] != '.' && stamp[i] != '/' && stamp[i] != '\0';
    ExtAfterDotFree(prefix, name);
    assert |Stamped(stamp, name)| == |stamp| + 1 + |name|;
  }

  // The names tried in turn: the desired one, then the desired one behind each stamp.
  function Candidates(desired: string, stamps: seq<string>): (c: seq<string>)
    ensures |c| == 1 + |stamps| && c[0] == desired
    ensures forall i :: 1 <= i < |c| ==> c[i] == Stamped(stamps[i - 1], desired)
  {
    [desired] + seq(|stamps|, i requires 0 <= i < |stamps| => Stamped(stamps[i], desired))
  }
}
