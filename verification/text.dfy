/**
  The JavaScript string primitives the blog code relies on: the `\s` class of regular
  expressions, `toLowerCase` (restricted to ASCII), `includes`, `endsWith` and `trim`.
*/
module Text {

  /** ECMAScript LineTerminator: LF, CR, LINE SEPARATOR, PARAGRAPH SEPARATOR. */
  predicate IsLineTerminator(c: char)
  {
    c == '\n' || c == '\r' || c as int == 0x2028 || c as int == 0x2029
  }

  predicate NotLineTerminator(c: char)
  {
    !IsLineTerminator(c)
  }

  /** The regular-expression class `\s` (WhiteSpace and LineTerminator); `trim` strips the same set. */
  predicate IsSpace(c: char)
  {
    || c == ' ' || c == '\t' || c as int == 0x0B || c as int == 0x0C
    || IsLineTerminator(c)
    || c as int == 0xA0 || c as int == 0x1680 || 0x2000 <= c as int <= 0x200A
    || c as int == 0x202F || c as int == 0x205F || c as int == 0x3000 || c as int == 0xFEFF
  }

  /** The length of the run of `\s` characters that starts at index `i`. */
  function SpaceRun(s: string, i: nat): (n: nat)
    requires i <= |s|
    ensures i + n <= |s|
    ensures forall k {:trigger IsSpace(s[k])} :: i <= k < i + n ==> IsSpace(s[k])
    ensures i + n == |s| || !IsSpace(s[i + n])
    decreases |s| - i
  {
    if i == |s| || !IsSpace(s[i]) then 0 else 1 + SpaceRun(s, i + 1)
  }

  /** The run is determined by where it must stop. */
  lemma {:induction false} SpaceRunIs(s: string, i: nat, n: nat)
    requires i + n <= |s|
    requires forall k {:trigger IsSpace(s[k])} :: i <= k < i + n ==> IsSpace(s[k])
    requires i + n == |s| || !IsSpace(s[i + n])
    ensures SpaceRun(s, i) == n
    decreases n
  {
    if n > 0 {
      assert IsSpace(s[i]);
      SpaceRunIs(s, i + 1, n - 1);
    }
  }

  /** The number of characters from index `i` up to the next line terminator or the end. */
  function LineRun(s: string, i: nat): (n: nat)
    requires i <= |s|
    ensures i + n <= |s|
    ensures forall k {:trigger NotLineTerminator(s[k])} :: i <= k < i + n ==> NotLineTerminator(s[k])
    ensures i + n == |s| || IsLineTerminator(s[i + n])
    decreases |s| - i
  {
    if i == |s| || IsLineTerminator(s[i]) then 0 else 1 + LineRun(s, i + 1)
  }

  lemma {:induction false} LineRunIs(s: string, i: nat, n: nat)
    requires i + n <= |s|
    requires forall k {:trigger NotLineTerminator(s[k])} :: i <= k < i + n ==> NotLineTerminator(s[k])
    requires i + n == |s| || IsLineTerminator(s[i + n])
    ensures LineRun(s, i) == n
    decreases n
  {
    if n > 0 {
      assert NotLineTerminator(s[i]);
      LineRunIs(s, i + 1, n - 1);
    }
  }

  /** `toLowerCase` on ASCII letters; every other character is left as it is. */
  function Lower(c: char): char
  {
    if 'A' <= c <= 'Z' then (c as int + 32) as char else c
  }

  function LowerStr(s: string): (r: string)
    ensures |r| == |s|
    ensures forall i :: 0 <= i < |s| ==> r[i] == Lower(s[i])
  {
    seq(|s|, i requires 0 <= i < |s| => Lower(s[i]))
  }

  /** Lowercasing neither makes nor removes a space. */
  lemma LowerStrSpace(s: string)
    ensures ' ' in LowerStr(s) <==> ' ' in s
  {
    if ' ' in LowerStr(s) {
      var i :| 0 <= i < |s| && LowerStr(s)[i] == ' ';
      assert Lower(s[i]) == ' ';
    }
    if ' ' in s {
      var i :| 0 <= i < |s| && s[i] == ' ';
      assert LowerStr(s)[i] == ' ';
    }
  }

  /** Lowercasing twice is lowercasing once: a lowercased tag is its own lowercase key. */
  lemma LowerStrIdempotent(s: string)
    ensures LowerStr(LowerStr(s)) == LowerStr(s)
  {
  }

  /** `s.includes(sub)`: `sub` occurs in `s` at some index. */
  predicate Contains(s: string, sub: string)
    decreases |s|
  {
    sub <= s || (s != [] && Contains(s[1..], sub))
  }

  /** `sub` occurs in `s` starting at index `i`. */
  predicate OccursAt(s: string, sub: string, i: int)
  {
    0 <= i <= |s| - |sub| && s[i..i + |sub|] == sub
  }

  /** Contains agrees with the index-based definition of an occurrence. */
  lemma {:induction false} ContainsAt(s: string, sub: string)
    ensures Contains(s, sub) <==> exists i :: OccursAt(s, sub, i)
    decreases |s|
  {
    if sub <= s {
      assert OccursAt(s, sub, 0);
    } else if s == [] {
      assert forall i :: !OccursAt(s, sub, i);
    } else {
      ContainsAt(s[1..], sub);
      if exists i :: OccursAt(s[1..], sub, i) {
        var i :| OccursAt(s[1..], sub, i);
        assert s[i + 1..i + 1 + |sub|] == s[1..][i..i + |sub|];
        assert OccursAt(s, sub, i + 1);
      }
      if exists i :: OccursAt(s, sub, i) {
        var i :| OccursAt(s, sub, i);
        if i != 0 {
          assert s[1..][i - 1..i - 1 + |sub|] == s[i..i + |sub|];
          assert OccursAt(s[1..], sub, i - 1);
        }
      }
    }
  }

  /** A one-character string is included exactly when the character occurs. */
  lemma {:induction false} ContainsChar(s: string, c: char)
    ensures Contains(s, [c]) <==> c in s
    decreases |s|
  {
    if s != [] {
      ContainsChar(s[1..], c);
      assert s == [s[0]] + s[1..];
    }
  }

  /** Every string includes the empty string. */
  lemma ContainsEmpty(s: string)
    ensures Contains(s, "")
  {
  }

  /** `s.endsWith(suffix)`. */
  predicate EndsWith(s: string, suffix: string)
  {
    |suffix| <= |s| && s[|s| - |suffix|..] == suffix
  }

  /** `s.trim()`: drops the leading and trailing `\s` characters. */
  function Trim(s: string): (r: string)
    ensures |r| <= |s|
    ensures r != [] ==> !IsSpace(r[0]) && !IsSpace(r[|r| - 1])
    ensures exists i :: OccursAt(s, r, i)
    ensures (exists k {:trigger IsSpace(s[k])} :: 0 <= k < |s| && !IsSpace(s[k])) ==> r != []
  {
    var lead := SpaceRun(s, 0);
    var r := TrimEnd(s[lead..]);
    assert s[lead..][0..|r|] == s[lead..lead + |r|];
    assert OccursAt(s, r, lead);
    assert (exists k {:trigger IsSpace(s[k])} :: 0 <= k < |s| && !IsSpace(s[k])) ==> lead < |s| && !IsSpace(s[lead..][0]);
    r
  }

  /** The trailing half of `trim`; keeps a prefix of `s`. */
  function TrimEnd(s: string): (r: string)
    ensures r <= s
    ensures r != [] ==> !IsSpace(r[|r| - 1])
    ensures s != [] && !IsSpace(s[0]) ==> r != [] && r[0] == s[0]
    ensures (exists k {:trigger IsSpace(s[k])} :: 0 <= k < |s| && !IsSpace(s[k])) ==> r != []
    ensures forall k {:trigger IsSpace(s[k])} :: |r| <= k < |s| ==> IsSpace(s[k])
  {
    if s == [] then []
    else if IsSpace(s[|s| - 1]) then
      var r := TrimEnd(s[..|s| - 1]);
      assert forall k :: 0 <= k < |s| - 1 ==> s[..|s| - 1][k] == s[k];
      r
    else s
  }

  /** A trimmed string is left alone by a second `trim`. */
  lemma TrimIdempotent(s: string)
    ensures Trim(Trim(s)) == Trim(s)
  {
    var t := Trim(s);
    if t != [] {
      assert SpaceRun(t, 0) == 0;
      assert t[0..] == t;
      TrimEndKeeps(t);
    }
  }

  /** Leading whitespace makes no difference to `trim`. */
  lemma TrimDropsSpace(s: string, n: nat)
    requires n <= |s|
    requires forall j {:trigger IsSpace(s[j])} :: 0 <= j < n ==> IsSpace(s[j])
    ensures Trim(s[n..]) == Trim(s)
  {
    var lead := SpaceRun(s, 0);
    assert n <= lead;
    SpaceRunIs(s[n..], 0, lead - n);
    assert s[n..][lead - n..] == s[lead..];
  }

  /** `trim` keeps exactly the part between the leading and the trailing whitespace. */
  lemma TrimIs(s: string, a: nat, b: nat)
    requires a < b <= |s| && !IsSpace(s[a]) && !IsSpace(s[b - 1])
    requires forall k {:trigger IsSpace(s[k])} :: 0 <= k < a ==> IsSpace(s[k])
    requires forall k {:trigger IsSpace(s[k])} :: b <= k < |s| ==> IsSpace(s[k])
    ensures Trim(s) == s[a..b]
  {
    SpaceRunIs(s, 0, a);
    var t := s[a..];
    forall k | b - a <= k < |t| ensures IsSpace(t[k]) {
      assert t[k] == s[a + k];
    }
    TrimEndIs(t, b - a);
    assert t[..b - a] == s[a..b];
  }

  lemma {:induction false} TrimEndIs(t: string, n: nat)
    requires 0 < n <= |t| && !IsSpace(t[n - 1])
    requires forall k {:trigger IsSpace(t[k])} :: n <= k < |t| ==> IsSpace(t[k])
    ensures TrimEnd(t) == t[..n]
    decreases |t|
  {
    if n < |t| {
      var init := t[..|t| - 1];
      forall k | n <= k < |init| ensures IsSpace(init[k]) {
        assert init[k] == t[k];
      }
      assert IsSpace(t[|t| - 1]);
      TrimEndIs(init, n);
      assert init[..n] == t[..n];
    } else {
      assert t[..n] == t;
    }
  }

  lemma TrimEndKeeps(s: string)
    requires s != [] && !IsSpace(s[|s| - 1])
    ensures TrimEnd(s) == s
  {
  }
}
