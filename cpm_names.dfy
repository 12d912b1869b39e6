/**
 * Host file names and the 8+3 names of a CP/M directory entry, and the
 * decimal option values of the cpmdisk command line.
 *
 * A host name is a C string: a sequence of characters without NUL. The
 * CP/M form is 11 bytes, an 8-byte name and a 3-byte extension, each
 * upper-cased and padded with spaces.
 */
module CpmNames {
  import opened Types

  const FILENAME_LEN: nat := 8
  const EXTENSION_LEN: nat := 3
  const SPACE: u8 := 0x20

  /** The characters cpmdisk refuses besides control characters and space. */
  const BAD_CHARS: set<char> := {'"', '*', '+', ',', '/', ':', ';', '<', '=', '>', '?', '[', '\\', ']', '|'}

  predicate NoNul(s: seq<char>)
  {
    forall i :: 0 <= i < |s| ==> s[i] != '\0'
  }

  /**
   * A character allowed in a name: above ' ' as a signed char (so bytes
   * 0x80 and above are refused too) and not one of the bad characters.
   */
  predicate IsNameChar(c: char)
  {
    ' ' < c < 0x80 as char && c !in BAD_CHARS
  }

  predicate AllNameChars(s: seq<char>)
  {
    forall i :: 0 <= i < |s| ==> IsNameChar(s[i])
  }

  /** The byte stored for a name character: a-z are upper-cased. */
  function UpperByte(c: char): (b: u8)
    ensures IsNameChar(c) ==> 0x20 < b < 0x80 && !(0x61 <= b <= 0x7A)
  {
    (if 'a' <= c <= 'z' then c as int - 0x20 else c as int) % 0x100
  }

  function UpperBytes(s: seq<char>): (r: seq<u8>)
    ensures |r| == |s| && forall i :: 0 <= i < |s| ==> r[i] == UpperByte(s[i])
  {
    seq(|s|, i requires 0 <= i < |s| => UpperByte(s[i]))
  }

  function Spaces(n: nat): (r: seq<u8>)
    ensures |r| == n && forall i :: 0 <= i < n ==> r[i] == SPACE
  {
    seq(n, _ => SPACE)
  }

  /** Exactly `n` bytes: `s` truncated, or padded with spaces. */
  function Fit(s: seq<u8>, n: nat): (r: seq<u8>)
    ensures |r| == n
  {
    if |s| >= n then s[..n] else s + Spaces(n - |s|)
  }

  /** The index of the first '.', or |s| when there is none. */
  function FirstDot(s: seq<char>): (d: nat)
    ensures d <= |s| && (d < |s| ==> s[d] == '.')
    ensures forall i :: 0 <= i < d ==> s[i] != '.'
  {
    FindDot(s, 0)
  }

  function FindDot(s: seq<char>, i: nat): (d: nat)
    requires i <= |s|
    ensures i <= d <= |s| && (d < |s| ==> s[d] == '.')
    ensures forall k :: i <= k < d ==> s[k] != '.'
    decreases |s| - i
  {
    if i < |s| && s[i] != '.' then FindDot(s, i + 1) else i
  }

  /** The first index at or after `i` that is not a '.', or |s|. */
  function SkipDots(s: seq<char>, i: nat): (e: nat)
    requires i <= |s|
    ensures i <= e <= |s| && (e < |s| ==> s[e] != '.')
    ensures forall k :: i <= k < e ==> s[k] == '.'
    decreases |s| - i
  {
    if i < |s| && s[i] == '.' then SkipDots(s, i + 1) else i
  }

  /**
   * Where the extension starts: after the first dot and any dots that
   * follow it directly; |s| when there is no dot.
   */
  function ExtStart(s: seq<char>): (e: nat)
    ensures FirstDot(s) <= e <= |s|
    ensures FirstDot(s) < |s| ==> FirstDot(s) < e && (e < |s| ==> s[e] != '.')
    ensures forall k :: FirstDot(s) < k < e ==> s[k] == '.'
  {
    var d := FirstDot(s);
    if d == |s| then |s| else SkipDots(s, d + 1)
  }

  /** FirstDot is the only index with its two properties. */
  lemma FirstDotUnique(s: seq<char>, d: nat)
    requires d <= |s| && (d < |s| ==> s[d] == '.')
    requires forall i :: 0 <= i < d ==> s[i] != '.'
    ensures FirstDot(s) == d
  {
  }

  /** ExtStart is the only index with its properties. */
  lemma ExtStartUnique(s: seq<char>, e: nat)
    requires FirstDot(s) < |s| && FirstDot(s) < e <= |s| && (e < |s| ==> s[e] != '.')
    requires forall k :: FirstDot(s) < k < e ==> s[k] == '.'
    ensures ExtStart(s) == e
  {
  }

  /** The 8-byte name field: the text before the first dot, upper-cased and fitted. */
  function NameField(s: seq<char>): (r: seq<u8>)
    ensures |r| == FILENAME_LEN
  {
    Fit(UpperBytes(s[..FirstDot(s)]), FILENAME_LEN)
  }

  /** The 3-byte extension field: the text from ExtStart on, upper-cased and fitted. */
  function ExtField(s: seq<char>): (r: seq<u8>)
    ensures |r| == EXTENSION_LEN
  {
    Fit(UpperBytes(s[ExtStart(s)..]), EXTENSION_LEN)
  }

  /**
   * `ConvertFileName`: the 11-byte CP/M name of a host name, or None when
   * the name is refused.
   */
  function ConvertFileName(name: seq<char>): (r: Option<seq<u8>>)
    requires NoNul(name)
    ensures r.Some? ==> |r.value| == FILENAME_LEN + EXTENSION_LEN
    ensures r.Some? ==> forall i :: 0 <= i < |r.value| ==> 0x20 <= r.value[i] < 0x80 && !(0x61 <= r.value[i] <= 0x7A)
    ensures r.Some? ==> r.value[0] != SPACE
  {
    if !AllNameChars(name) || '.' in name[ExtStart(name)..] || FirstDot(name) == 0 then None
    else Some(NameField(name) + ExtField(name))
  }

  // ----- The loop of the converter -----

  function Min(a: nat, b: nat): nat { if a < b then a else b }

  lemma FitSnoc(s: seq<u8>, b: u8, n: nat)
    ensures Fit(s + [b], n) == if |s| < n then Fit(s, n)[|s| := b] else Fit(s, n)
  {
    if |s| < n {
      assert Fit(s + [b], n) == Fit(s, n)[|s| := b];
    } else {
      assert (s + [b])[..n] == s[..n];
    }
  }

  /** A character other than '.' appended while no dot has been seen: it extends the name field. */
  lemma FieldsSnocInName(p: seq<char>, c: char)
    requires FirstDot(p) == |p| && c != '.'
    ensures FirstDot(p + [c]) == |p| + 1 && ExtStart(p + [c]) == |p| + 1
    ensures NameField(p + [c]) == if |p| < FILENAME_LEN then NameField(p)[|p| := UpperByte(c)] else NameField(p)
    ensures ExtField(p + [c]) == ExtField(p)
  {
    var q := p + [c];
    FirstDotUnique(q, |q|);
    assert q[..|q|] == p[..|p|] + [c];
    assert UpperBytes(q[..|q|]) == UpperBytes(p[..|p|]) + [UpperByte(c)];
    FitSnoc(UpperBytes(p[..|p|]), UpperByte(c), FILENAME_LEN);
    assert q[|q|..] == p[|p|..];
  }

  /** A character other than '.' appended after a dot: it extends the extension field. */
  lemma FieldsSnocInExtension(p: seq<char>, c: char)
    requires FirstDot(p) < |p| && c != '.'
    ensures FirstDot(p + [c]) == FirstDot(p) && ExtStart(p + [c]) == ExtStart(p)
    ensures NameField(p + [c]) == NameField(p)
    ensures (p + [c])[ExtStart(p)..] == p[ExtStart(p)..] + [c]
    ensures ExtField(p + [c]) == if |p| - ExtStart(p) < EXTENSION_LEN then ExtField(p)[|p| - ExtStart(p) := UpperByte(c)] else ExtField(p)
  {
    var q := p + [c];
    var d, e := FirstDot(p), ExtStart(p);
    FirstDotUnique(q, d);
    ExtStartUnique(q, e);
    assert q[..d] == p[..d];
    assert q[e..] == p[e..] + [c];
    assert UpperBytes(q[e..]) == UpperBytes(p[e..]) + [UpperByte(c)];
    FitSnoc(UpperBytes(p[e..]), UpperByte(c), EXTENSION_LEN);
  }

  /** A '.' appended before any extension character: the fields stay as they are. */
  lemma FieldsSnocDot(p: seq<char>)
    requires ExtStart(p) == |p|
    ensures FirstDot(p + ['.']) == FirstDot(p) < |p| + 1 && ExtStart(p + ['.']) == |p| + 1
    ensures NameField(p + ['.']) == NameField(p) && ExtField(p + ['.']) == ExtField(p)
  {
    var q := p + ['.'];
    var d := FirstDot(p);
    FirstDotUnique(q, d);
    ExtStartUnique(q, |q|);
    assert q[..d] == p[..d];
    assert q[|q|..] == p[|p|..];
  }

  /**
   * The state of the converter's loop after the prefix `p`: no character
   * refused so far, no dot inside the extension, and the buffer, write
   * position and room left as the prefix determines them.
   */
  ghost predicate LoopState(p: seq<char>, buf: seq<u8>, pTo: nat, nLength: nat)
  {
    && AllNameChars(p)
    && '.' !in p[ExtStart(p)..]
    && buf == NameField(p) + ExtField(p)
    && (if FirstDot(p) < |p|
        then pTo == FILENAME_LEN + Min(|p| - ExtStart(p), EXTENSION_LEN) && nLength == EXTENSION_LEN - Min(|p| - ExtStart(p), EXTENSION_LEN)
        else pTo == Min(|p|, FILENAME_LEN) && nLength == FILENAME_LEN - pTo)
  }

  lemma UpdateInFirst(a: seq<u8>, b: seq<u8>, i: nat, x: u8)
    requires i < |a|
    ensures (a + b)[i := x] == a[i := x] + b
  {
  }

  lemma UpdateInSecond(a: seq<u8>, b: seq<u8>, i: nat, x: u8)
    requires i < |b|
    ensures (a + b)[|a| + i := x] == a + b[i := x]
  {
  }

  lemma LoopStepCharInName(p: seq<char>, c: char, buf: seq<u8>, pTo: nat, nLength: nat)
    requires LoopState(p, buf, pTo, nLength) && IsNameChar(c) && c != '.' && FirstDot(p) == |p|
    ensures pTo + nLength <= |buf| == FILENAME_LEN + EXTENSION_LEN
    ensures nLength > 0 ==> LoopState(p + [c], buf[pTo := UpperByte(c)], pTo + 1, nLength - 1)
    ensures nLength == 0 ==> LoopState(p + [c], buf, pTo, nLength)
  {
    FieldsSnocInName(p, c);
    if nLength > 0 {
      UpdateInFirst(NameField(p), ExtField(p), pTo, UpperByte(c));
    }
  }

  lemma LoopStepCharInExtension(p: seq<char>, c: char, buf: seq<u8>, pTo: nat, nLength: nat)
    requires LoopState(p, buf, pTo, nLength) && IsNameChar(c) && c != '.' && FirstDot(p) < |p|
    ensures pTo + nLength <= |buf| == FILENAME_LEN + EXTENSION_LEN
    ensures nLength > 0 ==> LoopState(p + [c], buf[pTo := UpperByte(c)], pTo + 1, nLength - 1)
    ensures nLength == 0 ==> LoopState(p + [c], buf, pTo, nLength)
  {
    FieldsSnocInExtension(p, c);
    if nLength > 0 {
      UpdateInSecond(NameField(p), ExtField(p), |p| - ExtStart(p), UpperByte(c));
    }
  }

  /** A '.': refused when extension characters are already stored, else it moves to the extension. */
  lemma LoopStepDot(p: seq<char>, buf: seq<u8>, pTo: nat, nLength: nat)
    requires LoopState(p, buf, pTo, nLength)
    ensures pTo > FILENAME_LEN <==> ExtStart(p) < |p|
    ensures pTo <= FILENAME_LEN ==> LoopState(p + ['.'], buf, FILENAME_LEN, EXTENSION_LEN)
  {
    if ExtStart(p) == |p| {
      FieldsSnocDot(p);
      assert (p + ['.'])[|p| + 1..] == [];
    }
  }

  lemma LoopStateInitial(buf: seq<u8>)
    requires buf == Spaces(FILENAME_LEN + EXTENSION_LEN)
    ensures LoopState([], buf, 0, FILENAME_LEN)
  {
    assert NameField([]) == Spaces(FILENAME_LEN);
    assert ExtField([]) == Spaces(EXTENSION_LEN);
  }

  /** A refused character anywhere refuses the whole name. */
  lemma RefusedCharRefusesName(name: seq<char>, j: nat)
    requires NoNul(name) && j < |name| && !IsNameChar(name[j])
    ensures ConvertFileName(name).None?
  {
  }

  /** A dot met after the extension has started stays inside the extension of the whole name. */
  lemma DotAfterExtensionRefused(name: seq<char>, j: nat)
    requires NoNul(name) && j < |name| && name[j] == '.' && ExtStart(name[..j]) < j
    ensures ConvertFileName(name).None?
  {
    var p := name[..j];
    var d, e := FirstDot(p), ExtStart(p);
    FirstDotUnique(name, d);
    ExtStartUnique(name, e);
    assert name[ExtStart(name)..][j - e] == '.';
  }

  /** After the whole name, the buffer is the result unless its first byte is still a space. */
  lemma LoopStateFinal(name: seq<char>, buf: seq<u8>, pTo: nat, nLength: nat)
    requires NoNul(name) && LoopState(name, buf, pTo, nLength)
    ensures |buf| == FILENAME_LEN + EXTENSION_LEN
    ensures buf[0] == SPACE ==> ConvertFileName(name).None?
    ensures buf[0] != SPACE ==> ConvertFileName(name) == Some(buf)
  {
    if FirstDot(name) > 0 {
      assert buf[0] == NameField(name)[0] == UpperByte(name[0]);
    }
  }

  /** One step of the loop on a character the converter accepts. */
  lemma LoopStep(p: seq<char>, c: char, buf: seq<u8>, pTo: nat, nLength: nat)
    requires LoopState(p, buf, pTo, nLength) && IsNameChar(c) && c != '.'
    ensures pTo + nLength <= |buf| == FILENAME_LEN + EXTENSION_LEN
    ensures nLength > 0 ==> LoopState(p + [c], buf[pTo := UpperByte(c)], pTo + 1, nLength - 1)
    ensures nLength == 0 ==> LoopState(p + [c], buf, pTo, nLength)
  {
    if FirstDot(p) == |p| {
      LoopStepCharInName(p, c, buf, pTo, nLength);
    } else {
      LoopStepCharInExtension(p, c, buf, pTo, nLength);
    }
  }

  /**
   * The converter as cpmdisk runs it: fill an 11-byte buffer with spaces,
   * then walk the name with a write position and the room left in the
   * current part; a dot moves to the extension.
   */
  method ConvertFileNameInPlace(name: seq<char>) returns (ok: bool, cpmName: seq<u8>)
    requires NoNul(name)
    ensures ok <==> ConvertFileName(name).Some?
    ensures ok ==> cpmName == ConvertFileName(name).value
  {
    var buf := new u8[FILENAME_LEN + EXTENSION_LEN](_ => SPACE);
    var pTo: nat, nLength: nat := 0, FILENAME_LEN;
    var j := 0;
    ghost var done: seq<char> := [];
    LoopStateInitial(buf[..]);
    while j < |name|
      invariant 0 <= j <= |name| && done == name[..j]
      invariant LoopState(done, buf[..], pTo, nLength)
    {
      var c := name[j];
      assert name[..j + 1] == done + [c];
      if !IsNameChar(c) {
        RefusedCharRefusesName(name, j);
        return false, [];
      }
      if c == '.' {
        LoopStepDot(done, buf[..], pTo, nLength);
        if pTo > FILENAME_LEN {
          DotAfterExtensionRefused(name, j);
          return false, [];
        }
        pTo, nLength := FILENAME_LEN, EXTENSION_LEN;
      } else {
        LoopStep(done, c, buf[..], pTo, nLength);
        if nLength > 0 {
          ghost var before := buf[..];
          buf[pTo] := UpperByte(c);
          assert buf[..] == before[pTo := UpperByte(c)];
          pTo, nLength := pTo + 1, nLength - 1;
        }
      }
      done := done + [c];
      j := j + 1;
    }
    assert name[..j] == name;
    LoopStateFinal(name, buf[..], pTo, nLength);
    if buf[0] == SPACE {
      return false, [];
    }
    return true, buf[..];
  }

  // ----- What the converter accepts -----

  /**
   * The dot rule in the source's own terms: after the first dot, a non-dot
   * character followed later by another dot makes the name invalid.
   */
  lemma DotAfterExtensionIff(s: seq<char>)
    ensures '.' in s[ExtStart(s)..] <==>
      exists i, j, k :: 0 <= i < j < k < |s| && s[i] == '.' && s[j] != '.' && s[k] == '.'
  {
    var d, e := FirstDot(s), ExtStart(s);
    if '.' in s[e..] {
      var m :| 0 <= m < |s[e..]| && s[e..][m] == '.';
      assert s[e + m] == '.';
      assert d < |s| && s[e] != '.' && m > 0;
    }
    if exists i, j, k :: 0 <= i < j < k < |s| && s[i] == '.' && s[j] != '.' && s[k] == '.' {
      var i, j, k :| 0 <= i < j < k < |s| && s[i] == '.' && s[j] != '.' && s[k] == '.';
      assert d <= i < j;
      assert e <= j;
      assert s[e..][k - e] == '.';
    }
  }

  /**
   * The four ways a name is refused: a control, space, high or bad
   * character; a dot after extension characters; or an empty name part.
   */
  lemma ConvertFileNameRefusesExactly(name: seq<char>)
    requires NoNul(name)
    ensures ConvertFileName(name).None? <==>
      || (exists i :: 0 <= i < |name| && !IsNameChar(name[i]))
      || (exists i, j, k :: 0 <= i < j < k < |name| && name[i] == '.' && name[j] != '.' && name[k] == '.')
      || name == [] || name[0] == '.'
  {
    DotAfterExtensionIff(name);
  }

  function UpperChar(c: char): char
  {
    if 'a' <= c <= 'z' then (c as int - 0x20) as char else c
  }

  function UpperString(s: seq<char>): (r: seq<char>)
    ensures |r| == |s| && forall i :: 0 <= i < |s| ==> r[i] == UpperChar(s[i])
  {
    seq(|s|, i requires 0 <= i < |s| => UpperChar(s[i]))
  }

  /** Two texts with their dots in the same places split at the same indices. */
  lemma SameDots(s: seq<char>, t: seq<char>)
    requires |s| == |t| && forall i :: 0 <= i < |s| ==> (s[i] == '.' <==> t[i] == '.')
    ensures FirstDot(s) == FirstDot(t) && ExtStart(s) == ExtStart(t)
    ensures '.' in s[ExtStart(s)..] <==> '.' in t[ExtStart(t)..]
  {
    FirstDotUnique(t, FirstDot(s));
    if FirstDot(s) < |s| {
      ExtStartUnique(t, ExtStart(s));
    }
    var e := ExtStart(s);
    if '.' in s[e..] {
      var m :| 0 <= m < |s[e..]| && s[e..][m] == '.';
      assert t[e..][m] == '.';
    }
    if '.' in t[e..] {
      var m :| 0 <= m < |t[e..]| && t[e..][m] == '.';
      assert s[e..][m] == '.';
    }
  }

  /** Upper-casing first changes none of the stored bytes. */
  lemma FieldsOfUpper(s: seq<char>)
    requires FirstDot(UpperString(s)) == FirstDot(s) && ExtStart(UpperString(s)) == ExtStart(s)
    ensures NameField(UpperString(s)) == NameField(s) && ExtField(UpperString(s)) == ExtField(s)
  {
    var u, d, e := UpperString(s), FirstDot(s), ExtStart(s);
    assert UpperBytes(u[..d]) == UpperBytes(s[..d]);
    assert UpperBytes(u[e..]) == UpperBytes(s[e..]);
  }

  /** Upper-casing keeps the characters accepted and the dots where they are. */
  lemma UpperKeepsClasses(s: seq<char>)
    ensures |UpperString(s)| == |s|
    ensures forall i :: 0 <= i < |s| ==> (UpperString(s)[i] == '.' <==> s[i] == '.')
    ensures AllNameChars(UpperString(s)) <==> AllNameChars(s)
    ensures NoNul(s) ==> NoNul(UpperString(s))
  {
    var u := UpperString(s);
    forall i | 0 <= i < |s|
      ensures IsNameChar(u[i]) <==> IsNameChar(s[i])
    {
    }
  }

  /** Case does not matter: a name and its upper-cased spelling convert alike. */
  lemma ConvertIgnoresCase(name: seq<char>)
    requires NoNul(name)
    ensures NoNul(UpperString(name))
    ensures ConvertFileName(UpperString(name)) == ConvertFileName(name)
  {
    UpperKeepsClasses(name);
    SameDots(name, UpperString(name));
    FieldsOfUpper(name);
  }

  // ----- Names as the directory listing shows them -----

  const NUL: u8 := 0

  /** The bytes of `s` before its first space or NUL, where `strchr` and `printf` stop. */
  function UpToStop(s: seq<u8>): (r: seq<u8>)
    ensures |r| <= |s| && r == s[..|r|] && SPACE !in r && NUL !in r
    ensures |r| < |s| ==> s[|r|] == SPACE || s[|r|] == NUL
  {
    if s == [] || s[0] == SPACE || s[0] == NUL then [] else [s[0]] + UpToStop(s[1..])
  }

  function AsChars(s: seq<u8>): (r: seq<char>)
    ensures |r| == |s| && forall i :: 0 <= i < |s| ==> r[i] == s[i] as char
  {
    seq(|s|, i requires 0 <= i < |s| => s[i] as char)
  }

  /**
   * `DoDir`'s display form of an 11-byte name: the name part up to its
   * first space, a dot, and the extension up to its first space. A NUL
   * in the name part ends the printed text there.
   */
  function DisplayName(cpmName: seq<u8>): (r: seq<char>)
    requires |cpmName| == FILENAME_LEN + EXTENSION_LEN
    ensures |r| <= FILENAME_LEN + EXTENSION_LEN + 1
  {
    var name := UpToStop(cpmName[..FILENAME_LEN]);
    if |name| < FILENAME_LEN && cpmName[|name|] == NUL then AsChars(name)
    else AsChars(name) + ['.'] + AsChars(UpToStop(cpmName[FILENAME_LEN..]))
  }

  /** Text free of spaces and NULs, followed by padding, reads back as that text. */
  lemma UpToStopOfFit(s: seq<u8>, n: nat)
    requires SPACE !in s && NUL !in s
    ensures UpToStop(Fit(s, n)) == s[..Min(|s|, n)]
  {
    var f := Fit(s, n);
    var r := UpToStop(f);
    var m := Min(|s|, n);
    assert forall i :: 0 <= i < m ==> f[i] == s[i] && f[i] != SPACE && f[i] != NUL;
    assert m < n ==> f[m] == SPACE;
    assert |r| <= m;
    assert r == f[..m] == s[..m];
  }

  /** Bytes as a converted name stores them: name characters other than '.', already upper case. */
  predicate StoredChars(b: seq<u8>)
  {
    forall i :: 0 <= i < |b| ==> IsNameChar(b[i] as char) && b[i] as char != '.' && UpperByte(b[i] as char) == b[i]
  }

  /** The text `name.ext` built from stored bytes converts to those bytes, fitted. */
  lemma ShownNameConverts(nb: seq<u8>, ne: seq<u8>)
    requires StoredChars(nb) && StoredChars(ne) && 0 < |nb|
    ensures NoNul(AsChars(nb) + ['.'] + AsChars(ne))
    ensures ConvertFileName(AsChars(nb) + ['.'] + AsChars(ne)) == Some(Fit(nb, FILENAME_LEN) + Fit(ne, EXTENSION_LEN))
  {
    var shown := AsChars(nb) + ['.'] + AsChars(ne);
    FirstDotUnique(shown, |nb|);
    ExtStartUnique(shown, |nb| + 1);
    assert shown[..|nb|] == AsChars(nb);
    assert shown[|nb| + 1..] == AsChars(ne);
    assert UpperBytes(AsChars(nb)) == nb;
    assert UpperBytes(AsChars(ne)) == ne;
    assert AllNameChars(shown) by {
      forall i | 0 <= i < |shown| ensures IsNameChar(shown[i]) {
        if i < |nb| {
          assert shown[i] == AsChars(nb)[i];
        } else if i > |nb| {
          assert shown[i] == AsChars(ne)[i - |nb| - 1];
        }
      }
    }
  }

  /** The upper-cased bytes of a dot-free part, cut to `n`, are stored bytes. */
  lemma BytesOfPart(s: seq<char>, n: nat)
    requires AllNameChars(s) && '.' !in s
    ensures SPACE !in UpperBytes(s) && NUL !in UpperBytes(s)
    ensures StoredChars(UpperBytes(s)[..Min(|s|, n)])
  {
    var b := UpperBytes(s)[..Min(|s|, n)];
    forall i | 0 <= i < |b| ensures b[i] as char != '.' && IsNameChar(b[i] as char) && UpperByte(b[i] as char) == b[i] {
      assert b[i] == UpperByte(s[i]);
      assert s[i] != '.' by { assert s[i] in s; }
    }
  }

  /** The listed form of a converted name is its two parts around one dot. */
  lemma DisplayOfConverted(name: seq<char>)
    requires NoNul(name) && ConvertFileName(name).Some?
    ensures var ub, ue := UpperBytes(name[..FirstDot(name)]), UpperBytes(name[ExtStart(name)..]);
      var nb, ne := ub[..Min(|ub|, FILENAME_LEN)], ue[..Min(|ue|, EXTENSION_LEN)];
      && DisplayName(ConvertFileName(name).value) == AsChars(nb) + ['.'] + AsChars(ne)
      && StoredChars(nb) && StoredChars(ne) && 0 < |nb|
      && Fit(nb, FILENAME_LEN) == NameField(name) && Fit(ne, EXTENSION_LEN) == ExtField(name)
  {
    var cpm := ConvertFileName(name).value;
    var base, ext := name[..FirstDot(name)], name[ExtStart(name)..];
    assert AllNameChars(base) && AllNameChars(ext);
    assert '.' !in base;
    var ub, ue := UpperBytes(base), UpperBytes(ext);
    BytesOfPart(base, FILENAME_LEN);
    BytesOfPart(ext, EXTENSION_LEN);
    assert cpm[..FILENAME_LEN] == Fit(ub, FILENAME_LEN) && cpm[FILENAME_LEN..] == Fit(ue, EXTENSION_LEN);
    UpToStopOfFit(ub, FILENAME_LEN);
    UpToStopOfFit(ue, EXTENSION_LEN);
  }

  /** A listed name converts back to the very entry name it was shown for. */
  lemma DisplayNameRoundTrip(name: seq<char>)
    requires NoNul(name) && ConvertFileName(name).Some?
    ensures NoNul(DisplayName(ConvertFileName(name).value))
    ensures ConvertFileName(DisplayName(ConvertFileName(name).value)) == ConvertFileName(name)
  {
    DisplayOfConverted(name);
    var ub, ue := UpperBytes(name[..FirstDot(name)]), UpperBytes(name[ExtStart(name)..]);
    ShownNameConverts(ub[..Min(|ub|, FILENAME_LEN)], ue[..Min(|ue|, EXTENSION_LEN)]);
  }

  // ----- The last path component -----

  /** `strrchr(path, '/')`: the text after the last slash, or the whole path. */
  function BaseName(path: seq<char>): (r: seq<char>)
    ensures |r| <= |path| && r == path[|path| - |r|..] && '/' !in r
    ensures |r| < |path| ==> path[|path| - |r| - 1] == '/'
    ensures NoNul(path) ==> NoNul(r)
  {
    if path == [] then []
    else if path[|path| - 1] == '/' then []
    else BaseName(path[..|path| - 1]) + [path[|path| - 1]]
  }
}
