/**
 String values in configuration files: `sym_escape_string_value` quotes them for writing, and the
 unescape loop of `conf_set_sym_val` undoes this in place when they are read.
 */
module KconfigEscape {
  import opened KconfigExpr

  const Quote := '"'
  const Backslash := '\\'
  const Nul := '\0'

  predicate Special(c: char) { c == Quote || c == Backslash }

  ghost predicate NulFree(s: seq<char>) { forall i :: 0 <= i < |s| ==> s[i] != Nul }

  /** The characters from position `p` of a buffer on are those of `s`. */
  ghost predicate Holds(b: seq<char>, p: nat, s: seq<char>) {
    p + |s| <= |b| && forall i :: 0 <= i < |s| ==> s[i] == b[p + i]
  }

  /** The C string at position `p` of a buffer is `s`. */
  ghost predicate HasString(b: seq<char>, p: nat, s: seq<char>) {
    p + |s| < |b| && Holds(b, p, s) && b[p + |s|] == Nul && NulFree(s)
  }

  // ----- C library -----

  method Strlen(a: array<char>, p: nat, ghost s: seq<char>) returns (l: nat)
    requires HasString(a[..], p, s)
    ensures l == |s|
  {
    l := 0;
    while a[p + l] != Nul
      invariant l <= |s| && (l < |s| ==> s[l] == a[p + l])
      decreases |s| - l
    {
      l := l + 1;
    }
  }

  /** `strcspn(p, "\"\\")`: how far it is to the first special character or the end. */
  method Strcspn(a: array<char>, p: nat, ghost s: seq<char>) returns (l: nat)
    requires HasString(a[..], p, s)
    ensures l <= |s| && (forall i :: 0 <= i < l ==> !Special(s[i])) && (l < |s| ==> Special(s[l]))
    ensures a[p + l] == if l < |s| then s[l] else Nul
  {
    l := 0;
    while a[p + l] != Nul && !Special(a[p + l])
      invariant l <= |s| && forall i :: 0 <= i < l ==> !Special(s[i])
      decreases |s| - l
    {
      assert l < |s| ==> s[l] == a[p + l];
      l := l + 1;
    }
    assert l < |s| ==> s[l] == a[p + l];
  }

  /** `strncat`: adds text to the string in a buffer. */
  method Strcat(res: array<char>, text: seq<char>, ghost s: seq<char>)
    requires HasString(res[..], 0, s) && NulFree(text) && |s| + |text| < res.Length
    modifies res
    ensures HasString(res[..], 0, s + text)
  {
    var end := Strlen(res, 0, s);
    for i := 0 to |text|
      invariant res[..end + i] == s + text[..i]
    {
      res[end + i] := text[i];
    }
    res[end + |text|] := Nul;
    assert res[..end + |text|] == s + text;
  }

  /** `memmove` to a lower address. */
  method MoveDown(a: array<char>, to: nat, from: nat, n: nat)
    requires to <= from && from + n <= a.Length
    modifies a
    ensures forall k :: to <= k < to + n ==> a[k] == old(a[k + (from - to)])
    ensures forall k :: 0 <= k < a.Length && !(to <= k < to + n) ==> a[k] == old(a[k])
  {
    for i := 0 to n
      invariant forall k :: to <= k < to + i ==> a[k] == old(a[k + (from - to)])
      invariant forall k :: 0 <= k < a.Length && !(to <= k < to + i) ==> a[k] == old(a[k])
    {
      a[to + i] := a[from + i];
    }
  }

  // ----- escaping -----

  function Body(s: seq<char>): seq<char> {
    if s == [] then []
    else if Special(s[0]) then [Backslash, s[0]] + Body(s[1..])
    else [s[0]] + Body(s[1..])
  }

  /** The quoted form of a string. */
  function Escape(s: seq<char>): seq<char> { [Quote] + Body(s) + [Quote] }

  function Specials(s: seq<char>): nat {
    if s == [] then 0 else (if Special(s[0]) then 1 else 0) + Specials(s[1..])
  }

  lemma {:induction false} BodyAppend(s: seq<char>, t: seq<char>)
    ensures Body(s + t) == Body(s) + Body(t) && Specials(s + t) == Specials(s) + Specials(t)
  {
    if s == [] {
      assert s + t == t;
    } else {
      assert (s + t)[1..] == s[1..] + t;
      BodyAppend(s[1..], t);
    }
  }

  lemma {:induction false} BodyLength(s: seq<char>)
    ensures |Body(s)| == |s| + Specials(s)
  {
    if s != [] { BodyLength(s[1..]); }
  }

  lemma {:induction false} BodyPlain(s: seq<char>)
    requires forall i :: 0 <= i < |s| ==> !Special(s[i])
    ensures Body(s) == s && Specials(s) == 0
  {
    if s != [] { BodyPlain(s[1..]); }
  }

  lemma {:induction false} BodyNulFree(s: seq<char>)
    requires NulFree(s)
    ensures NulFree(Body(s))
  {
    if s != [] { BodyNulFree(s[1..]); }
  }

  // ----- unescaping -----

  /** What a text after an opening quote stands for: up to the closing quote, where a backslash makes
      the next character ordinary.  Without a closing quote it stands for nothing. */
  function Unescape(t: seq<char>): Option<seq<char>> {
    if t == [] then None
    else if t[0] == Quote then Some([])
    else if t[0] == Backslash then (if |t| == 1 then None else Prepend([t[1]], Unescape(t[2..])))
    else Prepend([t[0]], Unescape(t[1..]))
  }

  function Prepend(s: seq<char>, r: Option<seq<char>>): Option<seq<char>> {
    if r.None? then None else Some(s + r.value)
  }

  /** Reading back what was written gives the same string, whatever follows on the line. */
  lemma {:induction false} RoundTrip(s: seq<char>, tail: seq<char>)
    ensures Unescape(Body(s) + [Quote] + tail) == Some(s)
  {
    if s != [] {
      RoundTrip(s[1..], tail);
      assert s == [s[0]] + s[1..];
      var t, t' := Body(s) + [Quote] + tail, Body(s[1..]) + [Quote] + tail;
      if Special(s[0]) {
        assert t == [Backslash, s[0]] + t';
        assert t[2..] == t';
      } else {
        assert t == [s[0]] + t';
        assert t[1..] == t';
      }
    }
  }

  /** A text is read as `s` exactly if it starts with a spelling of `s` and its closing quote. */
  ghost predicate Spells(t: seq<char>, s: seq<char>)
    decreases |t|
  {
    if s == [] then t != [] && t[0] == Quote
    else
      || (|t| > 0 && !Special(t[0]) && t[0] == s[0] && Spells(t[1..], s[1..]))
      || (|t| > 1 && t[0] == Backslash && t[1] == s[0] && Spells(t[2..], s[1..]))
  }

  lemma {:induction false} UnescapeSpells(t: seq<char>, s: seq<char>)
    ensures Unescape(t) == Some(s) <==> Spells(t, s)
    decreases |t|
  {
    if t != [] && t[0] != Quote && s != [] {
      if t[0] == Backslash {
        if |t| > 1 {
          UnescapeSpells(t[2..], s[1..]);
          PrependFirst(t[1], Unescape(t[2..]), s);
        }
      } else {
        UnescapeSpells(t[1..], s[1..]);
        PrependFirst(t[0], Unescape(t[1..]), s);
      }
    }
  }

  lemma PrependFirst(c: char, r: Option<seq<char>>, s: seq<char>)
    requires s != []
    ensures Prepend([c], r) == Some(s) <==> c == s[0] && r == Some(s[1..])
  {
    assert s == [s[0]] + s[1..];
    if r.Some? { assert ([c] + r.value)[1..] == r.value; }
  }

  // ----- sym_escape_string_value -----

  /** The first loop: the size of the quoted string with its terminator. */
  method EscapedSize(a: array<char>, ghost s: seq<char>) returns (size: nat)
    requires HasString(a[..], 0, s)
    ensures size == |Escape(s)| + 1
  {
    var len := Strlen(a, 0, s);
    size := len + 3;
    var p := 0;
    while true
      invariant p <= |s| && size == |s| + 3 + Specials(s[..p])
      decreases |s| - p
    {
      var l := Strcspn(a, p, s[p..]);
      NextSpecial(s, p, l);
      p := p + l;
      if a[p] == Nul {
        break;
      }
      size := size + 1;
      p := p + 1;
    }
    assert s[..p] == s;
    BodyLength(s);
  }

  /** The characters up to the next special one are kept, that one is escaped. */
  lemma NextSpecial(s: seq<char>, p: nat, l: nat)
    requires p + l <= |s| && (forall i :: 0 <= i < l ==> !Special(s[p..][i])) && (p + l < |s| ==> Special(s[p + l]))
    ensures Body(s[..p + l]) == Body(s[..p]) + s[p..p + l] && Specials(s[..p + l]) == Specials(s[..p])
    ensures p + l < |s| ==> Body(s[..p + l + 1]) == Body(s[..p + l]) + [Backslash] + [s[p + l]]
    ensures p + l < |s| ==> Specials(s[..p + l + 1]) == Specials(s[..p]) + 1
  {
    assert s[..p + l] == s[..p] + s[p..p + l];
    BodyAppend(s[..p], s[p..p + l]);
    var x := s[p..p + l];
    forall i | 0 <= i < |x|
      ensures !Special(x[i])
    {
      assert x[i] == s[p..][i];
    }
    BodyPlain(x);
    if p + l < |s| {
      assert s[..p + l + 1] == s[..p + l] + [s[p + l]];
      BodyAppend(s[..p + l], [s[p + l]]);
      assert Body([s[p + l]]) == [Backslash, s[p + l]];
      assert Specials([s[p + l]]) == 1;
    }
  }

  lemma BodyFits(s: seq<char>, q: nat)
    requires q <= |s|
    ensures |Body(s[..q])| <= |Body(s)|
  {
    assert s == s[..q] + s[q..];
    BodyAppend(s[..q], s[q..]);
  }

  /** The buffer holds the quoted string and its terminator, and nothing else fits into it. */
  method EscapeStringValue(a: array<char>, ghost s: seq<char>) returns (res: array<char>)
    requires HasString(a[..], 0, s)
    ensures fresh(res) && res[..] == Escape(s) + [Nul] && HasString(res[..], 0, Escape(s))
  {
    var size := EscapedSize(a, s);
    res := new char[size];
    res[0] := Nul;
    Strcat(res, [Quote], []);
    assert [] + [Quote] == [Quote] + Body([]) == [Quote];
    EscapeInto(res, a, s);
    Strcat(res, [Quote], [Quote] + Body(s));
    assert res[..] == res[..|Escape(s)|] + [res[|Escape(s)|]];
  }

  /** The second loop. */
  method EscapeInto(res: array<char>, a: array<char>, ghost s: seq<char>)
    requires HasString(a[..], 0, s) && HasString(res[..], 0, [Quote]) && res.Length > |Body(s)| + 1 && a != res
    modifies res
    ensures HasString(res[..], 0, [Quote] + Body(s))
  {
    var p := 0;
    while true
      invariant p <= |s| && HasString(res[..], 0, [Quote] + Body(s[..p]))
      decreases |s| - p
    {
      StringAt(a[..], p, s);
      var l := Strcspn(a, p, s[p..]);
      NextSpecial(s, p, l);
      assert a[p..p + l] == s[p..p + l];
      CopyPlain(res, a[p..p + l], s, p, l);
      p := p + l;
      if a[p] == Nul {
        break;
      }
      EscapeOne(res, a[p], s, p);
      p := p + 1;
    }
    assert s[..p] == s;
  }

  lemma StringAt(b: seq<char>, p: nat, s: seq<char>)
    requires HasString(b, 0, s) && p <= |s|
    ensures HasString(b, p, s[p..])
  {
  }

  method CopyPlain(res: array<char>, text: seq<char>, ghost s: seq<char>, ghost p: nat, ghost l: nat)
    requires p + l <= |s| && NulFree(s) && text == s[p..p + l] && HasString(res[..], 0, [Quote] + Body(s[..p]))
    requires res.Length > |Body(s)| + 1 && Body(s[..p + l]) == Body(s[..p]) + s[p..p + l]
    modifies res
    ensures HasString(res[..], 0, [Quote] + Body(s[..p + l]))
  {
    BodyFits(s, p + l);
    ghost var done := [Quote] + Body(s[..p]);
    Strcat(res, text, done);
    assert done + text == [Quote] + Body(s[..p + l]);
  }

  method EscapeOne(res: array<char>, c: char, ghost s: seq<char>, ghost p: nat)
    requires p < |s| && c == s[p] != Nul && HasString(res[..], 0, [Quote] + Body(s[..p])) && res.Length > |Body(s)| + 1
    requires Body(s[..p + 1]) == Body(s[..p]) + [Backslash] + [c]
    modifies res
    ensures HasString(res[..], 0, [Quote] + Body(s[..p + 1]))
  {
    BodyFits(s, p + 1);
    ghost var done := [Quote] + Body(s[..p]);
    Strcat(res, [Backslash], done);
    Strcat(res, [c], done + [Backslash]);
    assert done + [Backslash] + [c] == [Quote] + Body(s[..p + 1]);
  }

  // ----- conf_set_sym_val -----

  lemma {:induction false} UnescapePlain(x: seq<char>, t: seq<char>)
    requires forall i :: 0 <= i < |x| ==> !Special(x[i])
    ensures Unescape(x + t) == Prepend(x, Unescape(t))
  {
    if x == [] {
      assert x + t == t;
      assert Unescape(t).Some? ==> x + Unescape(t).value == Unescape(t).value;
    } else {
      assert (x + t)[1..] == x[1..] + t;
      UnescapePlain(x[1..], t);
      assert Unescape(t).Some? ==> [x[0]] + (x[1..] + Unescape(t).value) == x + Unescape(t).value;
    }
  }

  lemma PrependTwice(x: seq<char>, y: seq<char>, r: Option<seq<char>>)
    ensures Prepend(x, Prepend(y, r)) == Prepend(x + y, r)
  {
    if r.Some? { assert x + (y + r.value) == x + y + r.value; }
  }

  /** How far a text is read: it stands for `out` and whatever `t`, the part still to be read, stands
      for. */
  ghost predicate Progress(text: seq<char>, out: seq<char>, t: seq<char>) {
    Unescape(text) == Prepend(out, Unescape(t)) && (NulFree(out) || Unescape(t).None?)
  }

  /** The characters from `p` to `q` are `out`, and the string at `q` is `t`. */
  ghost predicate Reading(b: seq<char>, p: nat, q: nat, out: seq<char>, t: seq<char>) {
    p + |out| == q && Holds(b, p, out) && HasString(b, q, t)
  }

  lemma ProgressStart(text: seq<char>)
    ensures Progress(text, [], text)
  {
    var r := Unescape(text);
    if r.Some? { assert [] + r.value == r.value; }
  }

  lemma ProgressPlain(text: seq<char>, out: seq<char>, t: seq<char>, l: nat)
    requires Progress(text, out, t) && NulFree(t) && l <= |t| && forall i :: 0 <= i < l ==> !Special(t[i])
    ensures Progress(text, out + t[..l], t[l..])
  {
    assert t == t[..l] + t[l..];
    UnescapePlain(t[..l], t[l..]);
    PrependTwice(out, t[..l], Unescape(t[l..]));
  }

  lemma ProgressBackslash(text: seq<char>, out: seq<char>, t: seq<char>)
    requires Progress(text, out, t) && NulFree(t) && t != [] && t[0] == Backslash
    ensures if |t| == 1 then Progress(text, out + [Nul], []) else Progress(text, out + [t[1]], t[2..])
  {
    if |t| > 1 { PrependTwice(out, [t[1]], Unescape(t[2..])); }
  }

  lemma SkipPlain(b: seq<char>, p: nat, q: nat, out: seq<char>, t: seq<char>, l: nat)
    requires Reading(b, p, q, out, t) && l <= |t|
    ensures Reading(b, p, q + l, out + t[..l], t[l..])
  {
  }

  /** The text moves down over a backslash; at its end the old terminator is still in place. */
  lemma DropBackslash(b: seq<char>, b': seq<char>, p: nat, q: nat, out: seq<char>, t: seq<char>)
    requires Reading(b, p, q, out, t) && t != []
    requires |b'| == |b| && (forall k :: q <= k < q + |t| ==> b'[k] == b[k + 1])
    requires forall k :: 0 <= k < |b| && !(q <= k < q + |t|) ==> b'[k] == b[k]
    ensures if |t| == 1 then Reading(b', p, q + 1, out + [Nul], []) else Reading(b', p, q + 1, out + [t[1]], t[2..])
  {
    assert b'[q] == b[q + 1] == if |t| == 1 then Nul else t[1];
    assert b'[q + |t|] == b[q + |t|] == b'[q + |t| - 1];
  }

  lemma CloseQuote(b: seq<char>, p: nat, q: nat, text: seq<char>, out: seq<char>, t: seq<char>)
    requires Reading(b, p, q, out, t) && Progress(text, out, t) && t != [] && t[0] == Quote
    ensures Unescape(text) == Some(out) && HasString(b[q := Nul], p, out)
  {
    assert out + [] == out;
  }

  /** The loop that finds the closing quote and removes backslashes.  The cursor and what is left of the
      text never go beyond the old terminator, and nothing outside the text and its terminator changes. */
  method UnescapeInPlace(a: array<char>, p: nat, ghost text: seq<char>) returns (ok: bool)
    requires HasString(a[..], p, text)
    modifies a
    ensures ok == Unescape(text).Some?
    ensures ok ==> HasString(a[..], p, Unescape(text).value)
    ensures forall k :: 0 <= k < a.Length && !(p <= k <= p + |text|) ==> a[k] == old(a[k])
  {
    var q: nat := p;
    ghost var out, t := [], text;
    ProgressStart(text);
    while true
      invariant Reading(a[..], p, q, out, t) && Progress(text, out, t) && q + |t| <= p + |text|
      invariant forall k :: 0 <= k < a.Length && !(p <= k <= p + |text|) ==> a[k] == old(a[k])
      decreases |t|
    {
      var l := Strcspn(a, q, t);
      SkipPlain(a[..], p, q, out, t, l);
      ProgressPlain(text, out, t, l);
      q, out, t := q + l, out + t[..l], t[l..];
      if a[q] == Nul {
        return false;
      }
      if a[q] == Quote {
        CloseQuote(a[..], p, q, text, out, t);
        a[q] := Nul;
        return true;
      }
      out, t := RemoveBackslash(a, p, q, text, out, t);
      q := q + 1;
    }
  }

  method RemoveBackslash(a: array<char>, ghost p: nat, q: nat, ghost text: seq<char>, ghost out: seq<char>,
                         ghost t: seq<char>)
    returns (ghost out': seq<char>, ghost t': seq<char>)
    requires Reading(a[..], p, q, out, t) && Progress(text, out, t) && t != [] && t[0] == Backslash
    modifies a
    ensures Reading(a[..], p, q + 1, out', t') && Progress(text, out', t') && |t'| < |t|
    ensures forall k :: 0 <= k < a.Length && !(q <= k < q + |t|) ==> a[k] == old(a[k])
  {
    ghost var b := a[..];
    var len := Strlen(a, q, t);
    MoveDown(a, q, q + 1, len);
    DropBackslash(b, a[..], p, q, out, t);
    ProgressBackslash(text, out, t);
    if |t| == 1 {
      out', t' := out + [Nul], [];
    } else {
      out', t' := out + [t[1]], t[2..];
    }
  }

  /** What reading a string value comes to: no value without an opening quote, an error without a
      closing one. */
  datatype StringValue = Unset | Invalid | Stored(value: seq<char>)

  function ReadValue(s: seq<char>): StringValue {
    if s == [] || s[0] != Quote then Unset
    else
      var r := Unescape(s[1..]);
      if r.None? then Invalid else Stored(r.value)
  }

  method SetStringValue(a: array<char>, ghost s: seq<char>) returns (r: StringValue)
    requires HasString(a[..], 0, s)
    modifies a
    ensures r == ReadValue(s)
  {
    if a[0] != Quote {
      return Unset;
    }
    StringAt(a[..], 1, s);
    var ok := UnescapeInPlace(a, 1, s[1..]);
    if !ok {
      return Invalid;
    }
    ghost var v := Unescape(s[1..]).value;
    var len := Strlen(a, 1, v);
    assert a[1..1 + len] == a[..][1..1 + |v|];
    r := Stored(a[1..1 + len]);
  }

  /** A value that is written and read again is the same. */
  method WriteAndRead(a: array<char>, ghost s: seq<char>) returns (r: StringValue)
    requires HasString(a[..], 0, s)
    ensures r == Stored(s)
  {
    var res := EscapeStringValue(a, s);
    r := SetStringValue(res, Escape(s));
    RoundTrip(s, []);
    assert Escape(s)[1..] == Body(s) + [Quote] + [];
  }
}
