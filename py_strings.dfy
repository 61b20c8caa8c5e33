/** The parts of Python's `str` that the modelled code relies on, stated over
    `seq<char>`: `split` with a one-character separator, joining with a
    separator, `strip()` without arguments, `str(int)`, the f-string rendering
    of a value that may be `None`, and truthiness of strings and lists. */
module PyStrings {
  import opened Wrappers

  /** The characters for which `c.isspace()` holds, which are the ones
      `str.strip()` removes: the ASCII controls TAB to CR and FS to US, the
      space, and the Unicode separators. */
  const SpaceChars: set<char> := {
      '\U{9}', '\U{A}', '\U{B}', '\U{C}', '\U{D}', '\U{1C}', '\U{1D}', '\U{1E}',
      '\U{1F}', '\U{20}', '\U{85}', '\U{A0}', '\U{1680}', '\U{2000}', '\U{2001}', '\U{2002}',
      '\U{2003}', '\U{2004}', '\U{2005}', '\U{2006}', '\U{2007}', '\U{2008}', '\U{2009}', '\U{200A}',
      '\U{2028}', '\U{2029}', '\U{202F}', '\U{205F}', '\U{3000}'}

  /** `c.isspace()` */
  predicate IsSpace(c: char) {
    c in SpaceChars
  }

  /** `s` contains no character that `str.strip()` would remove */
  predicate NoSpace(s: string) {
    forall c :: c in s ==> !IsSpace(c)
  }

  /** Python truthiness of an optional string: neither `None` nor `""` */
  predicate Truthy(s: Option<string>) {
    s.Some? && |s.value| > 0
  }

  /** The number of occurrences of `c` in `s` */
  function Count(s: string, c: char): nat {
    if s == [] then 0 else (if s[0] == c then 1 else 0) + Count(s[1..], c)
  }

  lemma {:induction false} CountAbsent(s: string, c: char)
    ensures Count(s, c) == 0 <==> c !in s
  {
    if s != [] {
      CountAbsent(s[1..], c);
      assert s == [s[0]] + s[1..];
    }
  }

  /** `s.split(sep)` for a one-character separator: the pieces between the
      occurrences of `sep`, empty pieces included, so there is always one
      more piece than there are separators. */
  function Split(s: string, sep: char): (r: seq<string>)
    ensures |r| == Count(s, sep) + 1
  {
    if s == [] then [""]
    else
      var rest := Split(s[1..], sep);
      if s[0] == sep then [""] + rest
      else [[s[0]] + rest[0]] + rest[1..]
  }

  /** No piece of a split holds the separator. */
  lemma {:induction false} SplitPieces(s: string, sep: char)
    ensures forall w :: w in Split(s, sep) ==> sep !in w
  {
    if s != [] {
      var rest := Split(s[1..], sep);
      SplitPieces(s[1..], sep);
      if s[0] != sep {
        assert forall w :: w in rest[1..] ==> w in rest;
      }
    }
  }

  /** Every character of every piece of a split comes from the string split. */
  lemma {:induction false} SplitChars(s: string, sep: char, w: string, ch: char)
    requires w in Split(s, sep) && ch in w
    ensures ch in s
  {
    if s != [] {
      var rest := Split(s[1..], sep);
      if s[0] == sep {
        assert w in rest;
        SplitChars(s[1..], sep, w, ch);
      } else if w == [s[0]] + rest[0] {
        if ch != s[0] {
          assert ch in rest[0];
          SplitChars(s[1..], sep, rest[0], ch);
        }
      } else {
        assert w in rest[1..];
        assert w in rest;
        SplitChars(s[1..], sep, w, ch);
      }
    }
  }

  /** `sep.join(ws)` */
  function Join(ws: seq<string>, sep: string): string {
    if |ws| == 0 then ""
    else if |ws| == 1 then ws[0]
    else ws[0] + sep + Join(ws[1..], sep)
  }

  /** Joining the pieces of a split with the separator gives the string back. */
  lemma {:induction false} JoinSplit(s: string, c: char)
    ensures Join(Split(s, c), [c]) == s
  {
    if s != [] {
      var rest := Split(s[1..], c);
      JoinSplit(s[1..], c);
      if s[0] == c {
        assert Split(s, c) == [""] + rest;
        assert ([""] + rest)[1..] == rest;
      } else {
        var r := Split(s, c);
        assert r == [[s[0]] + rest[0]] + rest[1..];
        if |rest| == 1 {
          assert Join(rest, [c]) == rest[0];
        } else {
          assert r[1..] == rest[1..];
          assert Join(rest, [c]) == rest[0] + [c] + Join(rest[1..], [c]);
        }
      }
    }
  }

  /** Splitting `w + t` where `w` holds no separator glues `w` to the first
      piece of `t`. */
  lemma {:induction false} SplitPrefix(w: string, t: string, c: char)
    requires c !in w
    ensures Split(w + t, c) == [w + Split(t, c)[0]] + Split(t, c)[1..]
  {
    if w == [] {
      assert w + t == t;
      assert w + Split(t, c)[0] == Split(t, c)[0];
      assert Split(t, c) == [Split(t, c)[0]] + Split(t, c)[1..];
    } else {
      assert (w + t)[1..] == w[1..] + t;
      SplitPrefix(w[1..], t, c);
      assert [w[0]] + (w[1..] + Split(t, c)[0]) == w + Split(t, c)[0];
    }
  }

  /** A piece without the separator splits to itself. */
  lemma SplitPlain(w: string, c: char)
    requires c !in w
    ensures Split(w, c) == [w]
  {
    SplitPrefix(w, "", c);
    assert w + "" == w;
  }

  /** Splitting a join of separator-free pieces gives the pieces back. */
  lemma {:induction false} SplitJoin(ws: seq<string>, c: char)
    requires |ws| >= 1
    requires forall w :: w in ws ==> c !in w
    ensures Split(Join(ws, [c]), c) == ws
  {
    if |ws| == 1 {
      SplitPlain(ws[0], c);
    } else {
      assert ws[0] in ws;
      assert forall w :: w in ws[1..] ==> w in ws;
      SplitJoin(ws[1..], c);
      var tail := [c] + Join(ws[1..], [c]);
      assert Join(ws, [c]) == ws[0] + tail;
      SplitPrefix(ws[0], tail, c);
      assert tail[1..] == Join(ws[1..], [c]);
      assert Split(tail, c) == [""] + ws[1..];
      assert ws[0] + "" == ws[0];
      assert [ws[0]] + ws[1..] == ws;
    }
  }

  /** Appending one more piece to a join. */
  lemma {:induction false} JoinSnoc(ws: seq<string>, w: string, sep: string)
    requires |ws| >= 1
    ensures Join(ws + [w], sep) == Join(ws, sep) + sep + w
  {
    if |ws| == 1 {
      assert (ws + [w])[1..] == [w];
    } else {
      assert (ws + [w])[1..] == ws[1..] + [w];
      JoinSnoc(ws[1..], w, sep);
    }
  }

  /** `s.lstrip()`: the longest suffix of `s` that does not start with
      whitespace; everything removed is whitespace. */
  function LStrip(s: string): (r: string)
    ensures |r| <= |s| && r == s[|s| - |r|..]
  {
    if s != [] && IsSpace(s[0]) then LStrip(s[1..]) else s
  }

  /** `s.rstrip()`: the longest prefix of `s` that does not end with
      whitespace; everything removed is whitespace. */
  function RStrip(s: string): (r: string)
    ensures |r| <= |s| && r == s[..|r|]
  {
    if s != [] && IsSpace(s[|s| - 1]) then RStrip(s[..|s| - 1]) else s
  }

  /** What `lstrip` leaves does not start with whitespace. */
  lemma {:induction false} LStripStops(s: string)
    ensures LStrip(s) == [] || !IsSpace(LStrip(s)[0])
  {
    if s != [] && IsSpace(s[0]) {
      LStripStops(s[1..]);
    }
  }

  /** What `rstrip` leaves does not end with whitespace. */
  lemma {:induction false} RStripStops(s: string)
    ensures RStrip(s) == [] || !IsSpace(RStrip(s)[|RStrip(s)| - 1])
  {
    if s != [] && IsSpace(s[|s| - 1]) {
      RStripStops(s[..|s| - 1]);
    }
  }

  /** Everything `lstrip` removes is whitespace. */
  lemma {:induction false} LStripRemovesSpace(s: string, i: nat)
    requires i < |s| - |LStrip(s)|
    ensures IsSpace(s[i])
  {
    if s != [] && IsSpace(s[0]) && i > 0 {
      LStripRemovesSpace(s[1..], i - 1);
      assert s[1..][i - 1] == s[i];
    }
  }

  /** Everything `rstrip` removes is whitespace. */
  lemma {:induction false} RStripRemovesSpace(s: string, i: nat)
    requires |RStrip(s)| <= i < |s|
    ensures IsSpace(s[i])
  {
    if s != [] && IsSpace(s[|s| - 1]) && i < |s| - 1 {
      RStripRemovesSpace(s[..|s| - 1], i);
      assert s[..|s| - 1][i] == s[i];
    }
  }

  /** `s.strip()` */
  function Strip(s: string): string {
    RStrip(LStrip(s))
  }

  /** `strip` keeps the part of `s` that starts `Leading(s)` characters in;
      that part neither starts nor ends with whitespace, and everything
      removed before and after it is whitespace. */
  lemma StripTrims(s: string)
    ensures Leading(s) + |Strip(s)| <= |s|
    ensures s[Leading(s)..Leading(s) + |Strip(s)|] == Strip(s)
    ensures forall k | 0 <= k < Leading(s) :: IsSpace(s[k])
    ensures forall k | Leading(s) + |Strip(s)| <= k < |s| :: IsSpace(s[k])
    ensures Trimmed(Strip(s))
  {
    StripKeeps(s);
    StripEnds(s);
    StripRemovesLeading(s);
    StripRemovesTrailing(s);
  }

  /** `s` neither starts nor ends with whitespace */
  predicate Trimmed(s: string) {
    s == [] || (!IsSpace(s[0]) && !IsSpace(s[|s| - 1]))
  }

  /** The ends of what `strip` keeps are not whitespace. */
  lemma StripEnds(s: string)
    ensures Trimmed(Strip(s))
  {
    var left, r := LStrip(s), Strip(s);
    LStripStops(s);
    RStripStops(left);
    if r != [] {
      assert r[0] == left[0];
    }
  }

  /** `strip` removes only whitespace before the part it keeps. */
  lemma StripRemovesLeading(s: string)
    ensures forall k | 0 <= k < Leading(s) :: IsSpace(s[k])
  {
    forall k | 0 <= k < Leading(s)
      ensures IsSpace(s[k])
    {
      LStripRemovesSpace(s, k);
    }
  }

  /** What `strip` keeps is the part of `s` that starts `Leading(s)`
      characters in. */
  lemma StripKeeps(s: string)
    ensures Leading(s) + |Strip(s)| <= |s|
    ensures s[Leading(s)..Leading(s) + |Strip(s)|] == Strip(s)
  {
    PrefixOfSuffix(s, Leading(s), LStrip(s), Strip(s));
  }

  /** A prefix `r` of the suffix of `s` from `l` is the slice of `s` from `l`. */
  lemma PrefixOfSuffix(s: string, l: nat, left: string, r: string)
    requires l <= |s| && left == s[l..]
    requires |r| <= |left| && r == left[..|r|]
    ensures l + |r| <= |s| && s[l..l + |r|] == r
  {
  }

  /** `strip` removes only whitespace after the part it keeps. */
  lemma StripRemovesTrailing(s: string)
    ensures forall k | Leading(s) + |Strip(s)| <= k < |s| :: IsSpace(s[k])
  {
    var left, l, r := LStrip(s), Leading(s), Strip(s);
    assert r == RStrip(left);
    forall k | l + |r| <= k < |s|
      ensures IsSpace(s[k])
    {
      RStripRemovesSpace(left, k - l);
      assert left[k - l] == s[k];
    }
  }

  /** How many characters `lstrip` removes from the front of `s`. */
  function Leading(s: string): (n: nat)
    ensures n <= |s| && LStrip(s) == s[n..]
  {
    |s| - |LStrip(s)|
  }

  /** `str(n)` for a natural number: its decimal digits */
  function NatToString(n: nat): (r: string)
    ensures r != []
    ensures forall c :: c in r ==> '0' <= c <= '9'
  {
    if n < 10 then ["0123456789"[n]]
    else NatToString(n / 10) + ["0123456789"[n % 10]]
  }

  /** `str(n)`, or `f"{n}"`, for an integer */
  function IntToString(n: int): (r: string)
    ensures r != []
    ensures forall c :: c in r ==> c == '-' || '0' <= c <= '9'
  {
    if n < 0 then "-" + NatToString(-n) else NatToString(n)
  }

  /** `f"{s}"` for a value of type `str` that may be `None` */
  function Format(s: Option<string>): string {
    match s
    case Some(v) => v
    case None => "None"
  }
}
