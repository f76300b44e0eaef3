/**
 * The form-payload normaliser `normalize_data` of main.py.
 *
 * The payload is percent-decoded as a whole by `urllib.parse.unquote_plus`
 * FIRST; only then is the decoded text split on `&`, and every segment split
 * on `=` and unpacked into exactly one key and one value.  A dict
 * comprehension collects the pairs, so the last value of a repeated key wins.
 * Because decoding comes first, an escaped `%26` or `%3D` acts as a separator.
 */
module FormData {
  import opened Results

  /** One segment after the tuple unpack `key, value = el.split("=")`. */
  type Pair = (string, string)

  /** The `ValueError` of that tuple unpack: segment number `segment`
      (counted from 0) split into `parts` pieces instead of two. */
  datatype NormalizeError = UnpackError(segment: nat, parts: nat)

  // ------------------------------------------------------------------
  // Percent decoding (`unquote_plus`)
  // ------------------------------------------------------------------

  predicate IsHexDigit(c: char) {
    '0' <= c <= '9' || 'a' <= c <= 'f' || 'A' <= c <= 'F'
  }

  function HexValue(c: char): (v: nat)
    requires IsHexDigit(c)
    ensures v < 16
  {
    if '0' <= c <= '9' then c as int - '0' as int
    else if 'a' <= c <= 'f' then c as int - 'a' as int + 10
    else c as int - 'A' as int + 10
  }

  /** The character the escape `%` h l stands for: one byte, read as U+0000..U+00FF. */
  function EscapedChar(h: char, l: char): char
    requires IsHexDigit(h) && IsHexDigit(l)
  {
    (HexValue(h) * 16 + HexValue(l)) as char
  }

  /** What `unquote_plus` makes of a character that does not start an escape. */
  function PlusAsSpace(c: char): char {
    if c == '+' then ' ' else c
  }

  /** `urllib.parse.unquote_plus`: every `+` becomes a space, and every `%`
      followed by two hexadecimal digits (either case) becomes the character
      it encodes; a `%` without two hex digits after it is kept as it is.
      Scanning left to right, one escape at a time, gives the same text as
      the library's replace-then-split-on-`%` formulation. */
  function UnquotePlus(s: string): (r: string)
    ensures |r| <= |s|
    decreases |s|
  {
    if s == [] then []
    else if s[0] == '%' && |s| >= 3 && IsHexDigit(s[1]) && IsHexDigit(s[2]) then
      [EscapedChar(s[1], s[2])] + UnquotePlus(s[3..])
    else
      [PlusAsSpace(s[0])] + UnquotePlus(s[1..])
  }

  /** Without a `%`, decoding only turns each `+` into a space. */
  lemma {:induction false} UnquoteWithoutEscapes(s: string)
    requires '%' !in s
    ensures |UnquotePlus(s)| == |s|
    ensures forall i :: 0 <= i < |s| ==> UnquotePlus(s)[i] == PlusAsSpace(s[i])
    decreases |s|
  {
    if s != [] {
      UnquoteWithoutEscapes(s[1..]);
    }
  }

  // ------------------------------------------------------------------
  // `str.split` and its inverse `str.join`
  // ------------------------------------------------------------------

  /** The number of occurrences of `c` in `s`. */
  function Count(s: string, c: char): nat {
    if s == [] then 0 else (if s[0] == c then 1 else 0) + Count(s[1..], c)
  }

  /** `sep.join(parts)`: the pieces with one `sep` between neighbours. */
  function Join(parts: seq<string>, sep: char): string
    requires |parts| >= 1
  {
    if |parts| == 1 then parts[0] else parts[0] + [sep] + Join(parts[1..], sep)
  }

  /** Python's `s.split(sep)` for a one-character separator: one piece more
      than there are separators, no piece holds the separator, and joining
      the pieces gives `s` back
      (`"".split("&") == [""]`, `"a&&b".split("&") == ["a", "", "b"]`). */
  function Split(s: string, sep: char): (r: seq<string>)
    ensures |r| == Count(s, sep) + 1
    ensures forall i :: 0 <= i < |r| ==> sep !in r[i]
    ensures Join(r, sep) == s
    decreases |s|
  {
    if s == [] then [[]]
    else
      var rest := Split(s[1..], sep);
      if s[0] == sep then
        assert Join([[]] + rest, sep) == [] + [sep] + Join(rest, sep) by {
          assert ([[]] + rest)[1..] == rest;
        }
        assert s == [s[0]] + s[1..];
        [[]] + rest
      else
        var r := [[s[0]] + rest[0]] + rest[1..];
        assert Join(r, sep) == s by {
          if |rest| > 1 {
            assert r[1..] == rest[1..];
            assert Join(rest, sep) == rest[0] + [sep] + Join(rest[1..], sep);
          }
          assert s == [s[0]] + s[1..];
        }
        r
  }

  lemma SplitOfNoSeparator(s: string, sep: char)
    requires sep !in s
    ensures Split(s, sep) == [s]
  {
    var r := Split(s, sep);
    assert Count(s, sep) == 0 by { CountAbsent(s, sep); }
    assert |r| == 1;
  }

  lemma {:induction false} CountAbsent(s: string, c: char)
    requires c !in s
    ensures Count(s, c) == 0
    decreases |s|
  {
    if s != [] {
      CountAbsent(s[1..], c);
    }
  }

  lemma {:induction false} SplitAfterPiece(a: string, b: string, sep: char)
    requires sep !in a
    ensures Split(a + [sep] + b, sep) == [a] + Split(b, sep)
    decreases |a|
  {
    var s := a + [sep] + b;
    if a == [] {
      assert s[1..] == b;
    } else {
      assert s[1..] == a[1..] + [sep] + b;
      SplitAfterPiece(a[1..], b, sep);
      assert [a[0]] + a[1..] == a;
    }
  }

  /** `Split` inverts `Join` on pieces free of the separator, so a text has
      exactly one decomposition into separator-free pieces. */
  lemma {:induction false} SplitJoin(parts: seq<string>, sep: char)
    requires |parts| >= 1
    requires forall i :: 0 <= i < |parts| ==> sep !in parts[i]
    ensures Split(Join(parts, sep), sep) == parts
    decreases |parts|
  {
    if |parts| == 1 {
      SplitOfNoSeparator(parts[0], sep);
    } else {
      SplitJoin(parts[1..], sep);
      SplitAfterPiece(parts[0], Join(parts[1..], sep), sep);
      assert [parts[0]] + parts[1..] == parts;
    }
  }

  // ------------------------------------------------------------------
  // The tuple unpack and the dict comprehension
  // ------------------------------------------------------------------

  /** `[el.split("=") for el in segments]` followed by the unpack
      `key, value = ...` of each result, in order, from segment `from` on: the
      first segment that does not split into exactly two pieces raises. */
  function Unpack(segments: seq<string>, from: nat): (r: Result<seq<Pair>, NormalizeError>)
    requires from <= |segments|
    ensures r.Ok? <==> forall i :: from <= i < |segments| ==> Count(segments[i], '=') == 1
    ensures r.Ok? ==> |r.value| == |segments| - from
    ensures r.Ok? ==> forall i :: from <= i < |segments| ==>
      r.value[i - from] == (KeyOf(segments[i]), ValueOf(segments[i]))
    ensures r.Err? ==>
      && from <= r.error.segment < |segments|
      && r.error.parts == Count(segments[r.error.segment], '=') + 1 != 2
      && forall i :: from <= i < r.error.segment ==> Count(segments[i], '=') == 1
    decreases |segments| - from
  {
    if from == |segments| then Ok([])
    else
      var parts := Split(segments[from], '=');
      if |parts| != 2 then Err(UnpackError(from, |parts|))
      else
        match Unpack(segments, from + 1)
        case Ok(rest) => Ok([(parts[0], parts[1])] + rest)
        case Err(e) => Err(e)
  }

  /** Unpacking a whole list of well-formed segments pairs each segment's
      key with its value, at the segment's own position. */
  lemma UnpackedPairs(segments: seq<string>)
    requires Unpack(segments, 0).Ok?
    ensures |Unpack(segments, 0).value| == |segments|
    ensures forall i :: 0 <= i < |segments| ==>
      Unpack(segments, 0).value[i] == (KeyOf(segments[i]), ValueOf(segments[i]))
  {
    forall i | 0 <= i < |segments|
      ensures Unpack(segments, 0).value[i] == (KeyOf(segments[i]), ValueOf(segments[i]))
    {
      assert Unpack(segments, 0).value[i - 0] == (KeyOf(segments[i]), ValueOf(segments[i]));
    }
  }

  /** No later pair in `pairs` has the key of pair `i`. */
  predicate LastOccurrence(pairs: seq<Pair>, i: nat)
    requires i < |pairs|
  {
    forall j :: i < j < |pairs| ==> pairs[j].0 != pairs[i].0
  }

  /** The dict comprehension `{key: value for key, value in pairs}`: the
      pairs are inserted in order, so a later pair overwrites an earlier one
      with the same key. */
  function ToMap(pairs: seq<Pair>): map<string, string>
    decreases |pairs|
  {
    if pairs == [] then map[]
    else
      var last := pairs[|pairs| - 1];
      ToMap(pairs[..|pairs| - 1])[last.0 := last.1]
  }

  /** The keys of the dict are exactly the keys of the pairs. */
  lemma {:induction false} ToMapKeys(pairs: seq<Pair>)
    ensures ToMap(pairs).Keys == set i | 0 <= i < |pairs| :: pairs[i].0
    decreases |pairs|
  {
    if pairs != [] {
      var init := pairs[..|pairs| - 1];
      ToMapKeys(init);
      assert forall i :: 0 <= i < |init| ==> init[i] == pairs[i];
      var keys := set i | 0 <= i < |pairs| :: pairs[i].0;
      var initKeys := set i | 0 <= i < |init| :: init[i].0;
      assert keys == initKeys + {pairs[|pairs| - 1].0} by {
        forall k | k in keys ensures k in initKeys + {pairs[|pairs| - 1].0} {
          var i :| 0 <= i < |pairs| && pairs[i].0 == k;
          if i < |init| { assert init[i].0 == k; }
        }
        forall k | k in initKeys ensures k in keys {
          var i :| 0 <= i < |init| && init[i].0 == k;
          assert pairs[i].0 == k;
        }
      }
    }
  }

  /** Each key of the dict holds the value of the LAST pair with that key. */
  lemma {:induction false} ToMapLastWins(pairs: seq<Pair>, i: nat)
    requires i < |pairs| && LastOccurrence(pairs, i)
    ensures pairs[i].0 in ToMap(pairs) && ToMap(pairs)[pairs[i].0] == pairs[i].1
    decreases |pairs|
  {
    var init := pairs[..|pairs| - 1];
    if i < |init| {
      assert init[i] == pairs[i];
      assert LastOccurrence(init, i) by {
        forall j | i < j < |init| ensures init[j].0 != init[i].0 { assert init[j] == pairs[j]; }
      }
      ToMapLastWins(init, i);
    }
  }

  // ------------------------------------------------------------------
  // normalize_data
  // ------------------------------------------------------------------

  /** The `&`-separated segments of a payload, taken AFTER decoding: the
      unique decomposition of the decoded text into `&`-free pieces. */
  function Segments(payload: string): (r: seq<string>)
    ensures |r| >= 1 && Join(r, '&') == UnquotePlus(payload)
    ensures forall i :: 0 <= i < |r| ==> '&' !in r[i]
  {
    Split(UnquotePlus(payload), '&')
  }

  /** `normalize_data`: decode, split on `&`, unpack, collect.  It succeeds
      exactly when every decoded segment holds exactly one `=`; otherwise it
      fails at the FIRST segment that does not, which split into no `=` (one
      piece, e.g. the empty payload) or into more than two pieces. */
  function Normalize(payload: string): (r: Result<map<string, string>, NormalizeError>)
    ensures var segs := Segments(payload);
      && (r.Ok? <==> forall i :: 0 <= i < |segs| ==> Count(segs[i], '=') == 1)
      && (r.Err? ==>
            && r.error.segment < |segs|
            && r.error.parts == Count(segs[r.error.segment], '=') + 1
            && (r.error.parts == 1 || r.error.parts > 2)
            && forall i :: 0 <= i < r.error.segment ==> Count(segs[i], '=') == 1)
  {
    match Unpack(Segments(payload), 0)
    case Ok(pairs) => Ok(ToMap(pairs))
    case Err(e) => Err(e)
  }

  /** The key of a segment: the text before its first `=`. */
  function KeyOf(segment: string): (r: string)
    ensures |r| <= |segment| && r == segment[..|r|] && '=' !in r
    ensures |r| < |segment| ==> segment[|r|] == '='
  {
    var parts := Split(segment, '=');
    if |parts| > 1 then
      assert segment == parts[0] + ['='] + Join(parts[1..], '=');
      parts[0]
    else parts[0]
  }

  /** The value of a segment with one `=`: the text after it. */
  function ValueOf(segment: string): string {
    var parts := Split(segment, '=');
    if |parts| >= 2 then parts[1] else ""
  }

  /** No later segment has the key of segment `i`. */
  predicate LastKeyAt(segments: seq<string>, i: nat)
    requires i < |segments|
  {
    forall j :: i < j < |segments| ==> KeyOf(segments[j]) != KeyOf(segments[i])
  }

  /** A segment `k=v` with no `=` in `k` or `v` has key `k` and value `v`. */
  lemma SegmentParts(segment: string, k: string, v: string)
    requires segment == k + "=" + v && '=' !in k && '=' !in v
    ensures KeyOf(segment) == k && ValueOf(segment) == v
  {
    var p := [k, v];
    assert Join(p, '=') == segment by { assert p[1..] == [v]; }
    SplitJoin(p, '=');
  }

  /** A segment with exactly one `=` is its key, the `=`, then its value,
      and neither side holds a `=`. */
  lemma SegmentSplit(segment: string)
    requires Count(segment, '=') == 1
    ensures segment == KeyOf(segment) + "=" + ValueOf(segment)
    ensures '=' !in KeyOf(segment) && '=' !in ValueOf(segment)
  {
    var parts := Split(segment, '=');
    assert parts[1..] == [parts[1]];
    assert Join(parts, '=') == parts[0] + "=" + parts[1];
  }

  /** On success the keys are exactly the keys of the segments, and each key
      holds the value of the last segment that has it. */
  lemma NormalizeEntries(payload: string, m: map<string, string>)
    requires Normalize(payload) == Ok(m)
    ensures var segs := Segments(payload);
      && m.Keys == (set i | 0 <= i < |segs| :: KeyOf(segs[i]))
      && forall i :: 0 <= i < |segs| && LastKeyAt(segs, i) ==> m[KeyOf(segs[i])] == ValueOf(segs[i])
  {
    var segs := Segments(payload);
    var pairs := Unpack(segs, 0).value;
    assert m == ToMap(pairs);
    UnpackedPairs(segs);
    SegmentEntries(segs, pairs);
  }

  /** The dict built from the pairs of well-formed segments: its keys are the
      segments' keys, and the last segment with a key gives its value. */
  lemma SegmentEntries(segs: seq<string>, pairs: seq<Pair>)
    requires |pairs| == |segs|
    requires forall i :: 0 <= i < |segs| ==> pairs[i] == (KeyOf(segs[i]), ValueOf(segs[i]))
    ensures var m := ToMap(pairs);
      && m.Keys == (set i | 0 <= i < |segs| :: KeyOf(segs[i]))
      && forall i :: 0 <= i < |segs| && LastKeyAt(segs, i) ==> m[KeyOf(segs[i])] == ValueOf(segs[i])
  {
    var m := ToMap(pairs);
    assert m.Keys == (set i | 0 <= i < |segs| :: KeyOf(segs[i])) by {
      ToMapKeys(pairs);
      assert (set i | 0 <= i < |pairs| :: pairs[i].0) == (set i | 0 <= i < |segs| :: KeyOf(segs[i]));
    }
    forall i | 0 <= i < |segs| && LastKeyAt(segs, i)
      ensures m[KeyOf(segs[i])] == ValueOf(segs[i])
    {
      assert LastOccurrence(pairs, i);
      ToMapLastWins(pairs, i);
    }
  }

  /** Keys and values of a normalised payload never contain `&` or `=`:
      those characters, decoded or not, always act as separators. */
  lemma NormalizeNoSeparators(payload: string, m: map<string, string>)
    requires Normalize(payload) == Ok(m)
    ensures forall k :: k in m ==> '&' !in k && '=' !in k && '&' !in m[k] && '=' !in m[k]
  {
    var segs := Segments(payload);
    var pairs := Unpack(segs, 0).value;
    UnpackedPairs(segs);
    ToMapKeys(pairs);
    forall k | k in m
      ensures '&' !in k && '=' !in k && '&' !in m[k] && '=' !in m[k]
    {
      var i :| 0 <= i < |pairs| && pairs[i].0 == k;
      var last := LastWith(pairs, i);
      ToMapLastWins(pairs, last);
      assert m[k] == pairs[last].1;
      SegmentSplit(segs[i]);
      SegmentSplit(segs[last]);
      SubstringsAvoid(pairs[i].0, pairs[i].1, segs[i]);
      SubstringsAvoid(pairs[last].0, pairs[last].1, segs[last]);
    }
  }

  /** The index of the last pair with the key of pair `i`. */
  lemma {:induction false} LastWith(pairs: seq<Pair>, i: nat) returns (last: nat)
    requires i < |pairs|
    ensures i <= last < |pairs| && pairs[last].0 == pairs[i].0 && LastOccurrence(pairs, last)
    decreases |pairs| - i
  {
    if LastOccurrence(pairs, i) {
      last := i;
    } else {
      var j :| i < j < |pairs| && pairs[j].0 == pairs[i].0;
      last := LastWith(pairs, j);
    }
  }

  lemma SubstringsAvoid(k: string, v: string, segment: string)
    requires segment == k + "=" + v && '&' !in segment
    ensures '&' !in k && '&' !in v
  {
  }

  // ------------------------------------------------------------------
  // The encoder on the browser side, as the partner of the decoder
  // ------------------------------------------------------------------

  predicate IsAscii(s: string) {
    forall i :: 0 <= i < |s| ==> s[i] as int < 128
  }

  /** Characters the application/x-www-form-urlencoded serializer of the
      WHATWG URL Standard leaves unescaped. */
  predicate IsUnreserved(c: char) {
    'a' <= c <= 'z' || 'A' <= c <= 'Z' || '0' <= c <= '9' || c == '*' || c == '-' || c == '.' || c == '_'
  }

  function HexDigitUpper(d: nat): (c: char)
    requires d < 16
    ensures IsHexDigit(c) && HexValue(c) == d
  {
    if d < 10 then ('0' as int + d) as char else ('A' as int + d - 10) as char
  }

  function EncodeChar(c: char): string
    requires c as int < 128
  {
    if IsUnreserved(c) then [c]
    else if c == ' ' then "+"
    else ['%', HexDigitUpper(c as int / 16), HexDigitUpper(c as int % 16)]
  }

  /** The form serializer a browser applies to one key or value. */
  function FormEncode(s: string): string
    requires IsAscii(s)
  {
    if s == [] then [] else EncodeChar(s[0]) + FormEncode(s[1..])
  }

  lemma UnquoteEncodedChar(c: char, t: string)
    requires c as int < 128
    ensures UnquotePlus(EncodeChar(c) + t) == [c] + UnquotePlus(t)
  {
    var s := EncodeChar(c) + t;
    if IsUnreserved(c) {
      assert s[1..] == t;
    } else if c == ' ' {
      assert s[1..] == t;
    } else {
      var n := c as int;
      assert s[0] == '%' && s[1] == HexDigitUpper(n / 16) && s[2] == HexDigitUpper(n % 16);
      assert s[3..] == t;
      assert HexValue(s[1]) * 16 + HexValue(s[2]) == n;
      assert EscapedChar(s[1], s[2]) == c;
      assert UnquotePlus(s) == [EscapedChar(s[1], s[2])] + UnquotePlus(s[3..]);
    }
  }

  /** Decoding undoes the browser's encoding, whatever text follows it. */
  lemma {:induction false} UnquotePlusInvertsFormEncode(s: string, t: string)
    requires IsAscii(s)
    ensures UnquotePlus(FormEncode(s) + t) == s + UnquotePlus(t)
    decreases |s|
  {
    if s == [] {
      assert FormEncode(s) + t == t;
      assert s + UnquotePlus(t) == UnquotePlus(t);
    } else {
      var rest := FormEncode(s[1..]) + t;
      AsciiTail(s);
      UnquotePlusInvertsFormEncode(s[1..], t);
      Reassociate(EncodeChar(s[0]), FormEncode(s[1..]), t);
      UnquoteEncodedChar(s[0], rest);
      Reassociate([s[0]], s[1..], UnquotePlus(t));
      assert [s[0]] + s[1..] == s;
    }
  }

  lemma AsciiTail(s: string)
    requires IsAscii(s) && s != []
    ensures IsAscii(s[1..])
  {
    forall i | 0 <= i < |s| - 1 ensures s[1..][i] as int < 128 {
      assert s[1..][i] == s[i + 1];
    }
  }

  lemma AsciiConcat(a: string, b: string)
    requires IsAscii(a) && IsAscii(b)
    ensures IsAscii(a + b)
  {
    forall i | 0 <= i < |a + b| ensures (a + b)[i] as int < 128 {
      if i >= |a| {
        assert (a + b)[i] == b[i - |a|];
      }
    }
  }

  /** A single encoded field `encode(k)=encode(v)` normalises back to
      `{k: v}` exactly when neither `k` nor `v` contains `&` or `=`: since
      decoding runs before splitting, an encoded `&` or `=` is split on. */
  lemma RoundTripIff(k: string, v: string)
    requires IsAscii(k) && IsAscii(v)
    ensures Normalize(FormEncode(k) + "=" + FormEncode(v)) == Ok(map[k := v])
        <==> ('&' !in k && '=' !in k && '&' !in v && '=' !in v)
  {
    var payload := FormEncode(k) + "=" + FormEncode(v);
    var m := map[k := v];
    if '&' !in k && '=' !in k && '&' !in v && '=' !in v {
      DecodeEncodedField(k, v);
      NormalizeSingleField(payload, k, v);
    }
    if Normalize(payload) == Ok(m) {
      NormalizeNoSeparators(payload, m);
      assert k in m && m[k] == v;
    }
  }

  lemma {:induction false} DecodeEncodedField(k: string, v: string)
    requires IsAscii(k) && IsAscii(v)
    ensures UnquotePlus(FormEncode(k) + "=" + FormEncode(v)) == k + "=" + v
  {
    var ek, ev := FormEncode(k), FormEncode(v);
    DecodeEncodedValue(v);
    UnquoteSeparator('=', ev);
    UnquotePlusInvertsFormEncode(k, "=" + ev);
    Reassociate(ek, "=", ev);
    Reassociate(k, "=", v);
  }

  /** An encoded value decodes to itself. */
  lemma DecodeEncodedValue(v: string)
    requires IsAscii(v)
    ensures UnquotePlus(FormEncode(v)) == v
  {
    UnquotePlusInvertsFormEncode(v, "");
    assert FormEncode(v) + "" == FormEncode(v);
    assert v + UnquotePlus("") == v;
  }

  /** A separator other than `%` and `+` decodes to itself. */
  lemma UnquoteSeparator(c: char, t: string)
    requires c != '%' && c != '+'
    ensures UnquotePlus([c] + t) == [c] + UnquotePlus(t)
  {
    assert ([c] + t)[1..] == t;
  }

  /** Regrouping a concatenation of three texts, stated once so that the
      proofs above can cite it without re-deriving sequence equality. */
  lemma Reassociate(a: string, b: string, c: string)
    ensures a + b + c == a + (b + c)
  {
  }

  /** A payload that decodes to one field `k=v`, neither side holding a
      separator, normalises to `{k: v}`. */
  lemma NormalizeSingleField(payload: string, k: string, v: string)
    requires UnquotePlus(payload) == k + "=" + v
    requires '&' !in k && '=' !in k && '&' !in v && '=' !in v
    ensures Normalize(payload) == Ok(map[k := v])
  {
    var text := k + "=" + v;
    OneSegment(k, v);
    assert Segments(payload) == [text];
    FieldCount(k, v);
    SegmentParts(text, k, v);
    var pairs := Unpack([text], 0).value;
    assert pairs == [(k, v)];
    assert ToMap(pairs) == map[k := v] by {
      assert pairs[..0] == [];
    }
  }

  /** A field `k=v` with no `=` in `k` or `v` holds exactly one `=`. */
  lemma FieldCount(k: string, v: string)
    requires '=' !in k && '=' !in v
    ensures Count(k + "=" + v, '=') == 1
  {
    CountConcat(k + "=", v, '=');
    CountConcat(k, "=", '=');
    CountAbsent(k, '=');
    CountAbsent(v, '=');
  }

  /** A payload that decodes to two fields `k1=v1&k2=v2`, no side holding a
      separator, normalises to `{k1: v1, k2: v2}`, the second value winning
      when the keys coincide. */
  lemma {:induction false} NormalizeTwoFields(payload: string, k1: string, v1: string, k2: string, v2: string)
    requires UnquotePlus(payload) == k1 + "=" + v1 + "&" + k2 + "=" + v2
    requires '&' !in k1 && '=' !in k1 && '&' !in v1 && '=' !in v1
    requires '&' !in k2 && '=' !in k2 && '&' !in v2 && '=' !in v2
    ensures Normalize(payload) == Ok(map[k1 := v1][k2 := v2])
  {
    var s1, s2 := k1 + "=" + v1, k2 + "=" + v2;
    Reassociate(s1 + "&", k2 + "=", v2);
    Reassociate(s1 + "&", k2, "=");
    assert UnquotePlus(payload) == s1 + ['&'] + s2;
    assert '&' !in s1;
    SplitAfterPiece(s1, s2, '&');
    OneSegment(k2, v2);
    var segs := Segments(payload);
    assert segs == [s1, s2];
    FieldCount(k1, v1);
    FieldCount(k2, v2);
    SegmentParts(s1, k1, v1);
    SegmentParts(s2, k2, v2);
    var pairs := Unpack(segs, 0).value;
    assert pairs == [(k1, v1), (k2, v2)];
    assert ToMap(pairs[..1]) == map[k1 := v1] by {
      assert pairs[..1] == [(k1, v1)];
      assert pairs[..1][..0] == [];
    }
  }

  lemma UnquotePlain(s: string)
    requires '%' !in s && '+' !in s
    ensures UnquotePlus(s) == s
  {
    UnquoteWithoutEscapes(s);
  }

  /** Text without `%` decodes on its own: no escape can straddle the join. */
  lemma {:induction false} UnquoteConcat(a: string, b: string)
    requires '%' !in a
    ensures UnquotePlus(a + b) == UnquotePlus(a) + UnquotePlus(b)
    decreases |a|
  {
    if a != [] {
      assert (a + b)[1..] == a[1..] + b;
      UnquoteConcat(a[1..], b);
    } else {
      assert a + b == b;
    }
  }

  /** The case of a hex digit is insignificant (section 2.1 of RFC 3986):
      `a`-`f` have the values of `A`-`F`, which `HexDigitUpper` fixes. */
  lemma HexCaseInsensitive(c: char)
    requires 'a' <= c <= 'f'
    ensures HexValue(c) == HexValue((c as int - 32) as char)
  {
  }

  /** A `%` that is not followed by two hex digits is kept as it is, and
      decoding goes on with the next character. */
  lemma UnquoteStrayPercent(t: string)
    requires !(|t| >= 2 && IsHexDigit(t[0]) && IsHexDigit(t[1]))
    ensures UnquotePlus(['%'] + t) == ['%'] + UnquotePlus(t)
  {
    assert (['%'] + t)[1..] == t;
  }

  lemma UnquoteEscape(h: char, l: char, t: string)
    requires IsHexDigit(h) && IsHexDigit(l)
    ensures UnquotePlus(['%', h, l] + t) == [EscapedChar(h, l)] + UnquotePlus(t)
  {
    assert (['%', h, l] + t)[3..] == t;
  }

  /** A value that contains `&k2=v2`, however carefully encoded, smuggles in
      a second field: once decoded, its `%26` is a separator like any `&`. */
  lemma {:induction false} EncodedAmpersandInjectsField(k1: string, v1: string, k2: string, v2: string)
    requires IsAscii(k1) && IsAscii(v1) && IsAscii(k2) && IsAscii(v2)
    requires '&' !in k1 && '=' !in k1 && '&' !in v1 && '=' !in v1
    requires '&' !in k2 && '=' !in k2 && '&' !in v2 && '=' !in v2
    ensures Normalize(FormEncode(k1) + "=" + FormEncode(v1 + "&" + k2 + "=" + v2))
         == Ok(map[k1 := v1][k2 := v2])
  {
    var v := v1 + "&" + k2 + "=" + v2;
    AsciiConcat(v1, "&");
    AsciiConcat(v1 + "&", k2);
    AsciiConcat(v1 + "&" + k2, "=");
    AsciiConcat(v1 + "&" + k2 + "=", v2);
    DecodeEncodedField(k1, v);
    var p := k1 + "=";
    Reassociate(p, v1 + "&" + k2 + "=", v2);
    Reassociate(p, v1 + "&" + k2, "=");
    Reassociate(p, v1 + "&", k2);
    Reassociate(p, v1, "&");
    NormalizeTwoFields(FormEncode(k1) + "=" + FormEncode(v), k1, v1, k2, v2);
  }

  /** An encoded `=` inside a key or value (`%3D`) decodes to a second `=`,
      so the single field no longer unpacks into two parts. */
  lemma {:induction false} EncodedEqualsBreaksField(k: string, v: string)
    requires IsAscii(k) && IsAscii(v)
    requires '&' !in k && '&' !in v && ('=' in k || '=' in v)
    ensures Normalize(FormEncode(k) + "=" + FormEncode(v))
         == Err(UnpackError(0, Count(k, '=') + Count(v, '=') + 2))
  {
    EncodedFieldSegments(k, v);
    FieldEqualsCount(k, v);
    SingleSegmentFails(FormEncode(k) + "=" + FormEncode(v), k + "=" + v,
                       Count(k, '=') + Count(v, '=') + 2);
  }

  /** An encoded field whose key and value hold no `&` decodes to one
      segment, `k=v`. */
  lemma EncodedFieldSegments(k: string, v: string)
    requires IsAscii(k) && IsAscii(v) && '&' !in k && '&' !in v
    ensures Segments(FormEncode(k) + "=" + FormEncode(v)) == [k + "=" + v]
  {
    DecodeEncodedField(k, v);
    OneSegment(k, v);
  }

  /** A payload that decodes to one segment which does not split into two
      pieces fails at segment 0, reporting its number of pieces. */
  lemma SingleSegmentFails(payload: string, text: string, parts: nat)
    requires Segments(payload) == [text] && Count(text, '=') + 1 == parts && parts != 2
    ensures Normalize(payload) == Err(UnpackError(0, parts))
  {
    assert Unpack([text], 0) == Err(UnpackError(0, |Split(text, '=')|));
  }

  /** A field whose key and value hold no `&` is a single segment. */
  lemma OneSegment(k: string, v: string)
    requires '&' !in k && '&' !in v
    ensures Split(k + "=" + v, '&') == [k + "=" + v]
  {
    assert '&' !in k + "=" + v;
    SplitOfNoSeparator(k + "=" + v, '&');
  }

  lemma FieldEqualsCount(k: string, v: string)
    requires '=' in k || '=' in v
    ensures Count(k + "=" + v, '=') == Count(k, '=') + 1 + Count(v, '=') >= 2
  {
    CountConcat(k + "=", v, '=');
    CountConcat(k, "=", '=');
    if '=' in k { CountPresent(k, '='); } else { CountPresent(v, '='); }
  }

  /** Of two fields with the same key, the second one's value is kept. */
  lemma DuplicateKeyLastWins(payload: string, k: string, v1: string, v2: string)
    requires UnquotePlus(payload) == k + "=" + v1 + "&" + k + "=" + v2
    requires '&' !in k && '=' !in k && '&' !in v1 && '=' !in v1 && '&' !in v2 && '=' !in v2
    ensures Normalize(payload) == Ok(map[k := v2])
  {
    NormalizeTwoFields(payload, k, v1, k, v2);
    assert map[k := v1][k := v2] == map[k := v2];
  }

  lemma {:induction false} CountConcat(a: string, b: string, c: char)
    ensures Count(a + b, c) == Count(a, c) + Count(b, c)
    decreases |a|
  {
    if a == [] {
      assert a + b == b;
    } else {
      assert (a + b)[1..] == a[1..] + b;
      CountConcat(a[1..], b, c);
    }
  }

  lemma {:induction false} CountPresent(s: string, c: char)
    requires c in s
    ensures Count(s, c) >= 1
    decreases |s|
  {
    if s[0] != c {
      assert c in s[1..];
      CountPresent(s[1..], c);
    }
  }

  /** The empty payload is one empty segment, which has no `=`. */
  lemma EmptyPayloadFails(payload: string)
    requires payload == ""
    ensures Normalize(payload) == Err(UnpackError(0, 1))
  {
    assert Segments(payload) == [""];
  }
}
