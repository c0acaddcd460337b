/** The string operations the verifiers call, over Unicode scalar values:
    trimming, splitting at a separator, joining, ASCII case folding. */
module Text {
  import opened Outcomes

  // ---------------------------------------------------------------------
  // Trimming.
  // ---------------------------------------------------------------------

  /** The characters with the Unicode White_Space property. */
  predicate IsSpace(c: char) {
    || '\t' <= c <= '\r'
    || c == ' ' || c == '\U{85}' || c == '\U{A0}' || c == '\U{1680}'
    || '\U{2000}' <= c <= '\U{200A}'
    || c == '\U{2028}' || c == '\U{2029}' || c == '\U{202F}' || c == '\U{205F}' || c == '\U{3000}'
  }

  /** Those are these twenty-five code points. */
  lemma WhiteSpace(c: char)
    ensures IsSpace(c) <==>
            c as int in {
              0x09, 0x0A, 0x0B, 0x0C, 0x0D, 0x20, 0x85, 0xA0, 0x1680,
              0x2000, 0x2001, 0x2002, 0x2003, 0x2004, 0x2005, 0x2006, 0x2007, 0x2008, 0x2009, 0x200A,
              0x2028, 0x2029, 0x202F, 0x205F, 0x3000}
  {
  }

  predicate IsBlank(s: string) {
    forall c :: c in s ==> IsSpace(c)
  }

  /** No space at either end. */
  predicate IsTrimmed(s: string) {
    s == "" || (!IsSpace(s[0]) && !IsSpace(s[|s| - 1]))
  }

  function TrimStart(s: string): string {
    if s != "" && IsSpace(s[0]) then TrimStart(s[1..]) else s
  }

  function TrimEnd(s: string): string {
    if s != "" && IsSpace(s[|s| - 1]) then TrimEnd(s[..|s| - 1]) else s
  }

  function Trim(s: string): string {
    TrimEnd(TrimStart(s))
  }

  lemma {:induction false} TrimStartPadded(pre: string, s: string)
    requires IsBlank(pre)
    ensures TrimStart(pre + s) == TrimStart(s)
  {
    if pre == "" {
      assert pre + s == s;
    } else {
      assert pre[0] in pre && (pre + s)[1..] == pre[1..] + s;
      TrimStartPadded(pre[1..], s);
    }
  }

  lemma {:induction false} TrimEndPadded(s: string, post: string)
    requires IsBlank(post)
    ensures TrimEnd(s + post) == TrimEnd(s)
  {
    if post == "" {
      assert s + post == s;
    } else {
      var n := |post| - 1;
      assert post[n] in post && (s + post)[..|s| + n] == s + post[..n];
      TrimEndPadded(s, post[..n]);
    }
  }

  /** Trimming finds the core inside any padding. */
  lemma TrimPadded(pre: string, core: string, post: string)
    requires IsBlank(pre) && IsBlank(post) && IsTrimmed(core)
    ensures Trim(pre + core + post) == core
  {
    if core == "" {
      assert pre + core + post == (pre + post) + "";
      TrimStartPadded(pre + post, "");
    } else {
      assert pre + core + post == pre + (core + post);
      TrimStartPadded(pre, core + post);
      assert TrimStart(core + post) == core + post;
      TrimEndPadded(core, post);
    }
  }

  lemma {:induction false} TrimStartParts(s: string) returns (pre: string)
    ensures IsBlank(pre) && s == pre + TrimStart(s)
    ensures TrimStart(s) == "" || !IsSpace(TrimStart(s)[0])
  {
    if s != "" && IsSpace(s[0]) {
      var rest := TrimStartParts(s[1..]);
      pre := [s[0]] + rest;
    } else {
      pre := "";
    }
  }

  lemma {:induction false} TrimEndParts(s: string) returns (post: string)
    ensures IsBlank(post) && s == TrimEnd(s) + post
    ensures TrimEnd(s) == "" || !IsSpace(TrimEnd(s)[|TrimEnd(s)| - 1])
  {
    if s != "" && IsSpace(s[|s| - 1]) {
      var rest := TrimEndParts(s[..|s| - 1]);
      post := rest + [s[|s| - 1]];
    } else {
      post := "";
    }
  }

  /** Every string is its trimmed core inside blank padding. */
  lemma TrimParts(s: string) returns (pre: string, post: string)
    ensures IsBlank(pre) && IsBlank(post) && IsTrimmed(Trim(s))
    ensures s == pre + Trim(s) + post
  {
    pre := TrimStartParts(s);
    post := TrimEndParts(TrimStart(s));
  }

  lemma TrimEmptyMeansBlank(s: string)
    ensures Trim(s) == "" <==> IsBlank(s)
  {
    if IsBlank(s) {
      assert s == s + "" + "";
      TrimPadded(s, "", "");
    } else {
      var pre, post := TrimParts(s);
    }
  }

  // ---------------------------------------------------------------------
  // Splitting and joining.
  // ---------------------------------------------------------------------

  function Join(parts: seq<string>, sep: char): string {
    if parts == [] then ""
    else if |parts| == 1 then parts[0]
    else parts[0] + [sep] + Join(parts[1..], sep)
  }

  /** All the pieces between separators; one piece when there is none. */
  function Split(s: string, sep: char): (parts: seq<string>)
    ensures |parts| >= 1
    ensures forall i :: 0 <= i < |parts| ==> sep !in parts[i]
    ensures Join(parts, sep) == s
  {
    if s == "" then [""]
    else if s[0] == sep then
      var rest := Split(s[1..], sep);
      assert ([""] + rest)[1..] == rest;
      [""] + rest
    else
      var rest := Split(s[1..], sep);
      var parts := [[s[0]] + rest[0]] + rest[1..];
      assert parts[1..] == rest[1..];
      parts
  }

  lemma {:induction false} SplitPrefix(p: string, s: string, sep: char)
    requires sep !in p
    ensures Split(p + s, sep) == [p + Split(s, sep)[0]] + Split(s, sep)[1..]
  {
    if p == "" {
      assert p + s == s;
      assert "" + Split(s, sep)[0] == Split(s, sep)[0];
    } else {
      assert (p + s)[1..] == p[1..] + s && p == [p[0]] + p[1..];
      SplitPrefix(p[1..], s, sep);
      assert [p[0]] + (p[1..] + Split(s, sep)[0]) == p + Split(s, sep)[0];
    }
  }

  lemma SplitAtSeparator(p: string, s: string, sep: char)
    requires sep !in p
    ensures Split(p + [sep] + s, sep) == [p] + Split(s, sep)
  {
    assert p + [sep] + s == p + ([sep] + s) && ([sep] + s)[1..] == s;
    SplitPrefix(p, [sep] + s, sep);
    assert p + "" == p;
  }

  /** Splitting undoes joining. */
  lemma {:induction false} SplitJoin(parts: seq<string>, sep: char)
    requires |parts| >= 1
    requires forall i :: 0 <= i < |parts| ==> sep !in parts[i]
    ensures Split(Join(parts, sep), sep) == parts
  {
    if |parts| == 1 {
      assert parts[0] + "" == parts[0];
      SplitPrefix(parts[0], "", sep);
    } else {
      SplitAtSeparator(parts[0], Join(parts[1..], sep), sep);
      SplitJoin(parts[1..], sep);
    }
  }

  lemma {:induction false} JoinAppend(x: seq<string>, y: seq<string>, sep: char)
    requires x != [] && y != []
    ensures Join(x + y, sep) == Join(x, sep) + [sep] + Join(y, sep)
  {
    assert (x + y)[1..] == x[1..] + y;
    if |x| > 1 {
      JoinAppend(x[1..], y, sep);
    } else {
      assert x[1..] + y == y;
    }
  }

  /** Split at the first separator. */
  function SplitOnce(s: string, sep: char): (r: Option<(string, string)>)
    ensures r == None <==> sep !in s
    ensures r.Some? ==> s == r.value.0 + [sep] + r.value.1 && sep !in r.value.0
  {
    if s == "" then None
    else if s[0] == sep then Some(("", s[1..]))
    else
      var rest := SplitOnce(s[1..], sep);
      if rest == None then None else Some(([s[0]] + rest.value.0, rest.value.1))
  }

  lemma {:induction false} SplitOnceOf(key: string, value: string, sep: char)
    requires sep !in key
    ensures SplitOnce(key + [sep] + value, sep) == Some((key, value))
  {
    var s := key + [sep] + value;
    if key != "" {
      assert s[1..] == key[1..] + [sep] + value;
      SplitOnceOf(key[1..], value, sep);
      assert [key[0]] + key[1..] == key;
    }
  }

  /** Split at the last separator. */
  function SplitLast(s: string, sep: char): (r: Option<(string, string)>)
    ensures r == None <==> sep !in s
    ensures r.Some? ==> s == r.value.0 + [sep] + r.value.1 && sep !in r.value.1
  {
    if s == "" then None
    else
      var n := |s| - 1;
      if s[n] == sep then Some((s[..n], ""))
      else
        var rest := SplitLast(s[..n], sep);
        if rest == None then None else Some((rest.value.0, rest.value.1 + [s[n]]))
  }

  lemma {:induction false} SplitLastOf(head: string, tail: string, sep: char)
    requires sep !in tail
    ensures SplitLast(head + [sep] + tail, sep) == Some((head, tail))
  {
    var s := head + [sep] + tail;
    if tail == "" {
      assert s[..|s| - 1] == head;
    } else {
      var n := |tail| - 1;
      assert s[..|s| - 1] == head + [sep] + tail[..n];
      SplitLastOf(head, tail[..n], sep);
      assert tail[..n] + [tail[n]] == tail;
    }
  }

  // ---------------------------------------------------------------------
  // ASCII case.
  // ---------------------------------------------------------------------

  function LowerChar(c: char): char {
    if 'A' <= c <= 'Z' then (c as int + 32) as char else c
  }

  /** The twenty-six capitals change, and nothing else does. */
  lemma LowerLetters(k: nat)
    requires k < 26
    ensures LowerChar("ABCDEFGHIJKLMNOPQRSTUVWXYZ"[k]) == "abcdefghijklmnopqrstuvwxyz"[k]
  {
  }

  lemma OtherCharsKept(c: char)
    ensures LowerChar(c) == c <==> c !in "ABCDEFGHIJKLMNOPQRSTUVWXYZ"
  {
    var capitals := "ABCDEFGHIJKLMNOPQRSTUVWXYZ";
    if 'A' <= c <= 'Z' {
      assert capitals[c as int - 'A' as int] == c;
    }
  }

  function Lower(s: string): (t: string)
    ensures |t| == |s|
    ensures forall i :: 0 <= i < |s| ==> t[i] == LowerChar(s[i])
  {
    seq(|s|, i requires 0 <= i < |s| => LowerChar(s[i]))
  }

  predicate EqualIgnoringCase(s: string, t: string) {
    Lower(s) == Lower(t)
  }
}
