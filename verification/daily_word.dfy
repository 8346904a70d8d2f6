/**
 The parsing tail of `get_daily_word` in `src/lib.rs`: the response text is
 split on ',', the first field containing "solution" is split once on ':', and
 bytes 1..6 of the right-hand side (skipping its opening quote) are the word.
 Each `expect` and the out-of-range slice, which panic in the source, become an
 error value here.
 */
module DailyWord {
  import opened Text

  /* Why extraction failed: the first `expect`, the second `expect`, or the slice. */
  datatype ExtractError = SolutionNotFound | SplitFailed | SliceOutOfRange

  datatype Result<+T> = Ok(value: T) | Err(error: ExtractError)

  const Key: string := "solution"

  /* Position of the first `c` in `s`. */
  function IndexOf(s: string, c: char): (k: nat)
    requires c in s
    ensures k < |s| && s[k] == c && c !in s[..k]
  {
    if s[0] == c then 0
    else
      assert s == [s[0]] + s[1..];
      var k := 1 + IndexOf(s[1..], c);
      assert s[..k] == [s[0]] + s[1..][..k - 1];
      k
  }

  /* The first occurrence is the only index holding `c` with none before it. */
  lemma IndexOfUnique(s: string, c: char, k: nat)
    requires k < |s| && s[k] == c && c !in s[..k]
    ensures IndexOf(s, c) == k
  {
    var m := IndexOf(s, c);
    assert forall i :: 0 <= i < k ==> s[..k][i] == s[i];
    assert forall i :: 0 <= i < m ==> s[..m][i] == s[i];
  }

  /* The fields joined back together with `sep` between neighbours. */
  function Join(fields: seq<string>, sep: char): string
    decreases |fields|
  {
    if |fields| == 0 then []
    else if |fields| == 1 then fields[0]
    else fields[0] + [sep] + Join(fields[1..], sep)
  }

  /* `str::split` with a one-character pattern: never empty, no field holds the
     separator, and joining the fields gives the text back. */
  function Split(s: string, sep: char): (r: seq<string>)
    ensures |r| >= 1
    ensures forall k :: 0 <= k < |r| ==> sep !in r[k]
    ensures Join(r, sep) == s
    decreases |s|
  {
    if sep !in s then [s]
    else
      var k := IndexOf(s, sep);
      var rest := Split(s[k + 1..], sep);
      var r := [s[..k]] + rest;
      assert r[1..] == rest;
      assert s == s[..k] + [sep] + s[k + 1..];
      r
  }

  /* Splitting undoes joining, as long as no field holds the separator. */
  lemma {:induction false} SplitJoin(fields: seq<string>, sep: char)
    requires |fields| >= 1
    requires forall k :: 0 <= k < |fields| ==> sep !in fields[k]
    ensures Split(Join(fields, sep), sep) == fields
    decreases |fields|
  {
    if |fields| > 1 {
      var s := Join(fields, sep);
      var f := fields[0];
      assert s == f + [sep] + Join(fields[1..], sep);
      assert s[..|f|] == f && s[|f|] == sep;
      IndexOfUnique(s, sep, |f|);
      assert s[|f| + 1..] == Join(fields[1..], sep);
      SplitJoin(fields[1..], sep);
    }
  }

  /* The first field ends at the first separator. */
  lemma SplitAtFirst(s: string, sep: char, k: nat)
    requires k < |s| && s[k] == sep && sep !in s[..k]
    ensures Split(s, sep) == [s[..k]] + Split(s[k + 1..], sep)
  {
    IndexOfUnique(s, sep, k);
  }

  /* A separator in the text separates fields: the fields on either side of it
     are those of each side. */
  lemma {:induction false} SplitAcross(a: string, sep: char, b: string)
    ensures Split(a + [sep] + b, sep) == Split(a, sep) + Split(b, sep)
    decreases |a|
  {
    if sep !in a {
      SplitAfterField(a, sep, b);
    } else {
      var j := IndexOf(a, sep);
      SplitAcross(a[j + 1..], sep, b);
      SplitAcrossStep(a, sep, b, j);
    }
  }

  /* The inductive step of SplitAcross. */
  lemma SplitAcrossStep(a: string, sep: char, b: string, j: nat)
    requires j < |a| && a[j] == sep && sep !in a[..j]
    requires Split(a[j + 1..] + [sep] + b, sep) == Split(a[j + 1..], sep) + Split(b, sep)
    ensures Split(a + [sep] + b, sep) == Split(a, sep) + Split(b, sep)
  {
    FirstFieldLeads(a, sep, b, j);
    var x, p, q := a[..j], Split(a[j + 1..], sep), Split(b, sep);
    ConsAssociates(x, p, q, Split(a + [sep] + b, sep), Split(a, sep));
  }

  /* Regrouping `[x] + (p + q)`, kept apart from the facts about Split, among
     which the solver loses its way. */
  lemma ConsAssociates(x: string, p: seq<string>, q: seq<string>, whole: seq<string>, left: seq<string>)
    requires whole == [x] + (p + q) && left == [x] + p
    ensures whole == left + q
  {
  }

  /* Splitting `a + [sep] + b` and splitting `a` both begin with `a`'s first field. */
  lemma FirstFieldLeads(a: string, sep: char, b: string, j: nat)
    requires j < |a| && a[j] == sep && sep !in a[..j]
    ensures Split(a + [sep] + b, sep) == [a[..j]] + Split(a[j + 1..] + [sep] + b, sep)
    ensures Split(a, sep) == [a[..j]] + Split(a[j + 1..], sep)
  {
    var s := a + [sep] + b;
    assert s[..j] == a[..j];
    assert s[j + 1..] == a[j + 1..] + [sep] + b;
    SplitAtFirst(s, sep, j);
    SplitAtFirst(a, sep, j);
  }

  /* A separator-free field followed by the separator is the first field. */
  lemma SplitAfterField(a: string, sep: char, b: string)
    requires sep !in a
    ensures Split(a + [sep] + b, sep) == [a] + Split(b, sep)
  {
    var s := a + [sep] + b;
    assert s[..|a|] == a;
    assert s[|a| + 1..] == b;
    SplitAtFirst(s, sep, |a|);
  }

  /* `str::split_once`: the text before and after the first `c`, if there is one. */
  function SplitOnce(s: string, c: char): (r: Option<(string, string)>)
    ensures r.None? <==> c !in s
    ensures r.Some? ==> r.value.0 + [c] + r.value.1 == s && c !in r.value.0
  {
    if c !in s then None
    else
      var k := IndexOf(s, c);
      assert s == s[..k] + [c] + s[k + 1..];
      Some((s[..k], s[k + 1..]))
  }

  /* `Iterator::find(|x| x.contains(p))`: index of the first field containing `p`. */
  function FirstContaining(fields: seq<string>, p: string): (r: Option<nat>)
    ensures r.None? <==> forall k :: 0 <= k < |fields| ==> !Contains(fields[k], p)
    ensures r.Some? ==> r.value < |fields| && Contains(fields[r.value], p)
    ensures r.Some? ==> forall k :: 0 <= k < r.value ==> !Contains(fields[k], p)
    decreases |fields|
  {
    if |fields| == 0 then None
    else if Contains(fields[0], p) then Some(0)
    else
      match FirstContaining(fields[1..], p)
      case None => None
      case Some(k) => Some(k + 1)
  }

  /* A separator-free pattern occurs in the text exactly when it occurs in one of its fields. */
  lemma {:induction false} ContainsInSomeField(fields: seq<string>, sep: char, p: string)
    requires sep !in p
    ensures Contains(Join(fields, sep), p) <==> (|fields| == 0 && p == []) || exists k :: 0 <= k < |fields| && Contains(fields[k], p)
    decreases |fields|
  {
    if |fields| == 0 {
      assert Contains([], p) <==> p == [];
    } else if |fields| > 1 {
      ContainsAcrossSeparator(fields[0], sep, Join(fields[1..], sep), p);
      ContainsInSomeField(fields[1..], sep, p);
      if exists k :: 0 <= k < |fields| && Contains(fields[k], p) {
        var k :| 0 <= k < |fields| && Contains(fields[k], p);
        if k > 0 {
          assert fields[1..][k - 1] == fields[k];
        }
      }
      if exists k :: 0 <= k < |fields| - 1 && Contains(fields[1..][k], p) {
        var k :| 0 <= k < |fields| - 1 && Contains(fields[1..][k], p);
        assert fields[k + 1] == fields[1..][k];
      }
    }
  }

  /* `v` is the text after the first ':' of `field`. */
  predicate AfterFirstColon(field: string, v: string) {
    && |v| < |field|
    && field[|field| - |v| - 1] == ':'
    && ':' !in field[..|field| - |v| - 1]
    && field[|field| - |v|..] == v
  }

  /* A field has at most one text after its first colon. */
  lemma AfterFirstColonUnique(field: string, v: string, u: string)
    requires AfterFirstColon(field, v) && AfterFirstColon(field, u)
    ensures v == u
  {
  }

  /* The first two steps: the text after the first ':' of the first field that
     contains "solution". */
  function SolutionValue(text: string): (r: Result<string>)
    ensures r == Err(SolutionNotFound) <==> !Contains(text, Key)
    ensures r == Err(SolutionNotFound) <==> FirstContaining(Split(text, ','), Key).None?
    ensures r == Err(SplitFailed) <==>
              var f := Split(text, ','); var i := FirstContaining(f, Key);
              i.Some? && ':' !in f[i.value]
    ensures r.Err? ==> r.error != SliceOutOfRange
    ensures r.Ok? ==> var f := Split(text, ','); var i := FirstContaining(f, Key);
                      i.Some? && AfterFirstColon(f[i.value], r.value)
    ensures r.Ok? ==> ',' !in r.value
  {
    var fields := Split(text, ',');
    ContainsInSomeField(fields, ',', Key);
    match FirstContaining(fields, Key)
    case None => Err(SolutionNotFound)
    case Some(k) =>
      match SplitOnce(fields[k], ':')
      case None => Err(SplitFailed)
      case Some((key, value)) =>
        var e := fields[k];
        assert |e| - |value| - 1 == |key|;
        assert e[..|key|] == key && e[|key| + 1..] == value;
        Ok(value)
  }

  /* The parsing tail of `get_daily_word`. */
  function ExtractSolution(text: string): (r: Result<string>)
    ensures r == Err(SolutionNotFound) <==> !Contains(text, Key)
    ensures r == Err(SplitFailed) <==>
              var f := Split(text, ','); var i := FirstContaining(f, Key);
              i.Some? && ':' !in f[i.value]
    ensures r == Err(SliceOutOfRange) <==>
              SolutionValue(text).Ok? && !(IsCharBoundary(SolutionValue(text).value, 1) && IsCharBoundary(SolutionValue(text).value, 6))
    ensures r.Ok? ==> SolutionValue(text).Ok? && ByteSlice(SolutionValue(text).value, 1, 6) == Some(r.value)
    ensures r.Ok? ==> ByteLen(r.value) == 5 && 2 <= |r.value| <= 5
  {
    match SolutionValue(text)
    case Err(e) => Err(e)
    case Ok(value) =>
      match ByteSlice(value, 1, 6)
      case None => Err(SliceOutOfRange)
      case Some(w) =>
        ByteLenBounds(w);
        Ok(w)
  }

  /* On ASCII text the word is exactly five characters, the slice of the value
     after its first character, and extraction fails only when the value is
     shorter than six characters (or at an earlier step). */
  lemma AsciiExtraction(text: string)
    requires IsAscii(text)
    ensures match SolutionValue(text)
            case Err(e) => ExtractSolution(text) == Err(e)
            case Ok(v) => ExtractSolution(text) == if |v| >= 6 then Ok(v[1..6]) else Err(SliceOutOfRange)
    ensures ExtractSolution(text).Ok? ==> |ExtractSolution(text).value| == 5
  {
    match SolutionValue(text)
    case Err(e) =>
    case Ok(v) =>
      ValueIsInfix(text);
      forall i | 0 <= i < |v|
        ensures (v[i] as int) < 0x80
      {
        assert v[i] in text;
      }
      if |v| >= 6 {
        assert IsAscii(v[..6]);
        AsciiByteSlice(v, 1, 6);
      } else {
        AsciiByteSliceOutOfRange(v, 1, 6);
      }
  }

  /* Every character of the extracted value is a character of the text. */
  lemma ValueIsInfix(text: string)
    ensures SolutionValue(text).Ok? ==> forall c :: c in SolutionValue(text).value ==> c in text
  {
    var fields := Split(text, ',');
    JoinKeepsCharacters(fields, ',');
    match FirstContaining(fields, Key)
    case None =>
    case Some(k) =>
      match SplitOnce(fields[k], ':')
      case None =>
      case Some((_, value)) =>
        assert forall c :: c in value ==> c in fields[k];
  }

  lemma {:induction false} JoinKeepsCharacters(fields: seq<string>, sep: char)
    ensures forall k, c :: 0 <= k < |fields| && c in fields[k] ==> c in Join(fields, sep)
    decreases |fields|
  {
    if |fields| > 1 {
      JoinKeepsCharacters(fields[1..], sep);
      forall k, c | 0 <= k < |fields| && c in fields[k]
        ensures c in Join(fields, sep)
      {
        if k > 0 {
          assert fields[1..][k - 1] == fields[k];
        }
      }
    }
  }

  /* The "solution" entry of a payload as the word service writes it. */
  function Entry(w: string): string {
    "\"solution\":\"" + w + "\""
  }

  /* `e` is a whole comma-delimited field of `text` (`pre` is empty or ends in a
     comma, `post` is empty or starts with one) and no earlier field mentions "solution". */
  ghost predicate FirstKeyField(text: string, pre: string, e: string, post: string) {
    && text == pre + e + post
    && (pre == [] || pre[|pre| - 1] == ',')
    && (post == [] || post[0] == ',')
    && ',' !in e
    && Contains(e, Key)
    && !Contains(pre, Key)
  }

  /* The fields that `pre` contributes in front of the next field, and those `post` adds after it. */
  function Before(pre: string): seq<string> {
    if pre == [] then [] else Split(pre[..|pre| - 1], ',')
  }

  function After(post: string): seq<string> {
    if post == [] then [] else Split(post[1..], ',')
  }

  lemma FieldsAround(pre: string, e: string, post: string)
    requires (pre == [] || pre[|pre| - 1] == ',') && (post == [] || post[0] == ',')
    requires ',' !in e
    ensures Split(pre + e + post, ',') == Before(pre) + [e] + After(post)
  {
    if pre == [] {
      assert Before(pre) + [e] + After(post) == [e] + After(post);
      assert pre + e + post == e + post;
      FieldsFrom(e, post);
    } else {
      assert Before(pre) == Split(pre[..|pre| - 1], ',');
      FieldsAfterComma(pre, e, post);
    }
  }

  lemma FieldsAfterComma(pre: string, e: string, post: string)
    requires pre != [] && pre[|pre| - 1] == ',' && (post == [] || post[0] == ',')
    requires ',' !in e
    ensures Split(pre + e + post, ',') == Split(pre[..|pre| - 1], ',') + [e] + After(post)
  {
    var p := pre[..|pre| - 1];
    var whole := Split(pre + e + post, ',');
    assert whole == Split(p, ',') + Split(e + post, ',') by {
      assert pre + e + post == p + [','] + (e + post);
      SplitAcross(p, ',', e + post);
    }
    FieldsFrom(e, post);
    FieldsRegroup(whole, Split(p, ','), e, After(post));
  }

  /* Regrouping `a + ([e] + b)`, kept apart from the facts about Split. */
  lemma FieldsRegroup(whole: seq<string>, a: seq<string>, e: string, b: seq<string>)
    requires whole == a + ([e] + b)
    ensures whole == a + [e] + b
  {
  }

  /* The fields of a comma-free field followed by `post`. */
  lemma FieldsFrom(e: string, post: string)
    requires post == [] || post[0] == ','
    requires ',' !in e
    ensures Split(e + post, ',') == [e] + After(post)
  {
    if post == [] {
      assert e + post == e;
    } else {
      assert e + post == e + [','] + post[1..];
      SplitAfterField(e, ',', post[1..]);
    }
  }

  /* Text without "solution" has no field that mentions it. */
  lemma NoKeyBefore(pre: string)
    requires (pre == [] || pre[|pre| - 1] == ',') && !Contains(pre, Key)
    ensures forall k :: 0 <= k < |Before(pre)| ==> !Contains(Before(pre)[k], Key)
  {
    if pre != [] {
      var p := pre[..|pre| - 1];
      assert pre == p + [','] + [];
      ContainsAcrossSeparator(p, ',', [], Key);
      ContainsInSomeField(Split(p, ','), ',', Key);
    }
  }

  /* A field of that shape is the one `find` picks. */
  lemma KeyFieldFound(text: string, pre: string, e: string, post: string)
    requires FirstKeyField(text, pre, e, post)
    ensures var f := Split(text, ','); var i := FirstContaining(f, Key);
            i.Some? && f[i.value] == e
  {
    FieldsAround(pre, e, post);
    NoKeyBefore(pre);
    FirstOfPayload(Before(pre), e, After(post));
    assert (Before(pre) + [e] + After(post))[|Before(pre)|] == e;
  }

  /* The text around field `i` is the fields before it and the fields after it, each joined. */
  lemma {:induction false} JoinAround(f: seq<string>, i: nat, sep: char)
    requires i < |f|
    ensures Join(f, sep) == (if i == 0 then [] else Join(f[..i], sep) + [sep]) + f[i]
                            + (if i + 1 == |f| then [] else [sep] + Join(f[i + 1..], sep))
    decreases i
  {
    if i == 0 {
      if |f| > 1 {
        assert f[1..] == f[i + 1..];
      }
    } else {
      JoinAround(f[1..], i - 1, sep);
      assert f[1..][i - 1] == f[i];
      assert f[1..][i..] == f[i + 1..];
      if i > 1 {
        assert f[..i][1..] == f[1..][..i - 1];
      }
    }
  }

  /* When `find` picks a field, that field has the shape above. */
  lemma KeyFieldExists(text: string)
    requires FirstContaining(Split(text, ','), Key).Some?
    ensures var f := Split(text, ','); var i := FirstContaining(f, Key).value;
            exists pre, post :: FirstKeyField(text, pre, f[i], post)
  {
    var f := Split(text, ',');
    var i := FirstContaining(f, Key).value;
    var pre := if i == 0 then [] else Join(f[..i], ',') + [','];
    var post := if i + 1 == |f| then [] else [','] + Join(f[i + 1..], ',');
    assert FirstKeyField(text, pre, f[i], post) by {
      JoinAround(f, i, ',');
      if i > 0 {
        FieldsWithoutKey(f, i);
      } else {
        ShorterThanPattern([], Key);
      }
    }
    KeyFieldWitness(text, pre, f[i], post);
  }

  lemma KeyFieldWitness(text: string, pre: string, e: string, post: string)
    requires FirstKeyField(text, pre, e, post)
    ensures exists pre', post' :: FirstKeyField(text, pre', e, post')
  {
  }

  /* Fields none of which mention "solution", joined and followed by a comma, do not mention it. */
  lemma FieldsWithoutKey(f: seq<string>, i: nat)
    requires 0 < i <= |f|
    requires forall k :: 0 <= k < i ==> !Contains(f[k], Key)
    ensures !Contains(Join(f[..i], ',') + [','], Key)
  {
    var j := Join(f[..i], ',');
    ContainsInSomeField(f[..i], ',', Key);
    assert j + [','] == j + [','] + [];
    ContainsAcrossSeparator(j, ',', [], Key);
    ShorterThanPattern([], Key);
  }

  /* The value is the text after the first colon of the first comma-delimited
     field that mentions "solution", and only that text. */
  lemma SolutionValueIff(text: string, v: string)
    ensures SolutionValue(text) == Ok(v) <==>
            exists pre, e, post :: FirstKeyField(text, pre, e, post) && AfterFirstColon(e, v)
  {
    var f := Split(text, ',');
    if SolutionValue(text) == Ok(v) {
      KeyFieldExists(text);
      var i := FirstContaining(f, Key).value;
      var pre, post :| FirstKeyField(text, pre, f[i], post);
      assert FirstKeyField(text, pre, f[i], post) && AfterFirstColon(f[i], v);
    }
    if exists pre, e, post :: FirstKeyField(text, pre, e, post) && AfterFirstColon(e, v) {
      var pre, e, post :| FirstKeyField(text, pre, e, post) && AfterFirstColon(e, v);
      KeyFieldFound(text, pre, e, post);
      assert ':' in e by {
        assert e[|e| - |v| - 1] == ':';
      }
      AfterFirstColonUnique(e, v, SolutionValue(text).value);
    }
  }

  /* Extraction fails at the split exactly when the first comma-delimited field
     that mentions "solution" holds no colon, whatever the rest of the reply holds. */
  lemma NoColonMeansSplitFailed(text: string)
    ensures ExtractSolution(text) == Err(SplitFailed) <==>
            exists pre, e, post :: FirstKeyField(text, pre, e, post) && ':' !in e
  {
    var f := Split(text, ',');
    if ExtractSolution(text) == Err(SplitFailed) {
      KeyFieldExists(text);
      var i := FirstContaining(f, Key).value;
      var pre, post :| FirstKeyField(text, pre, f[i], post);
      assert FirstKeyField(text, pre, f[i], post) && ':' !in f[i];
    }
    if exists pre, e, post :: FirstKeyField(text, pre, e, post) && ':' !in e {
      var pre, e, post :| FirstKeyField(text, pre, e, post) && ':' !in e;
      KeyFieldFound(text, pre, e, post);
    }
  }

  /* A field holding the entry as the word service writes it, with anything
     comma- and colon-free before it and anything comma-free after it. */
  lemma EntryField(lead: string, w: string, trail: string)
    requires ':' !in lead && ',' !in lead && ',' !in w && ',' !in trail
    ensures var e := lead + Entry(w) + trail;
            ',' !in e && Contains(e, Key) && AfterFirstColon(e, "\"" + w + "\"" + trail)
  {
    var e := lead + Entry(w) + trail;
    var n := |lead|;
    assert e[n + 1..][..8] == Key;
    ContainsAt(e, Key, n + 1);
    assert e[..n + 10] == lead + "\"solution\"";
    assert e[n + 11..] == "\"" + w + "\"" + trail;
  }

  /* Bytes 1..6 of a quoted five-letter ASCII word are the word, whatever follows. */
  lemma QuotedSlice(w: string, trail: string)
    requires |w| == 5 && IsAscii(w)
    ensures ByteSlice("\"" + w + "\"" + trail, 1, 6) == Some(w)
  {
    var v := "\"" + w + "\"" + trail;
    assert IsAscii(v[..6]);
    AsciiByteSlice(v, 1, 6);
    assert v[1..6] == w;
  }

  /* Extraction recovers the word from any reply whose first field mentioning
     "solution" holds the entry `"solution":"w"`, such as `{"solution":"w"}` or
     `{"id":1,"solution":"w","days":2}`. */
  lemma ExtractFromPayload(pre: string, lead: string, w: string, trail: string, post: string)
    requires (pre == [] || pre[|pre| - 1] == ',') && (post == [] || post[0] == ',')
    requires !Contains(pre, Key)
    requires ':' !in lead && ',' !in lead && ',' !in trail
    requires |w| == 5 && IsAscii(w) && ',' !in w
    ensures ExtractSolution(pre + lead + Entry(w) + trail + post) == Ok(w)
  {
    PayloadValue(pre, lead, w, trail, post);
    QuotedSlice(w, trail);
  }

  /* The value found in such a reply is the quoted word and whatever follows it in its field. */
  lemma PayloadValue(pre: string, lead: string, w: string, trail: string, post: string)
    requires (pre == [] || pre[|pre| - 1] == ',') && (post == [] || post[0] == ',')
    requires !Contains(pre, Key)
    requires ':' !in lead && ',' !in lead && ',' !in trail && ',' !in w
    ensures SolutionValue(pre + lead + Entry(w) + trail + post) == Ok("\"" + w + "\"" + trail)
  {
    var e := lead + Entry(w) + trail;
    var text := pre + lead + Entry(w) + trail + post;
    EntryField(lead, w, trail);
    Regroup(pre, lead, Entry(w), trail, post);
    assert FirstKeyField(text, pre, e, post);
    SolutionValueIff(text, "\"" + w + "\"" + trail);
  }

  lemma Regroup(a: string, b: string, c: string, d: string, x: string)
    ensures a + b + c + d + x == a + (b + c + d) + x
  {
  }

  /* The fields of such a payload: those before, the field itself, those after. */
  lemma PayloadFields(before: string, e: string, after: string)
    requires ',' !in e
    ensures Split(before + "," + e + "," + after, ',') == Split(before, ',') + [e] + Split(after, ',')
  {
    assert before + "," + e + "," + after == before + [','] + (e + [','] + after);
    SplitAcross(before, ',', e + [','] + after);
    SplitAfterField(e, ',', after);
  }

  lemma {:induction false} FirstOfPayload(a: seq<string>, e: string, b: seq<string>)
    requires forall k :: 0 <= k < |a| ==> !Contains(a[k], Key)
    requires Contains(e, Key)
    ensures FirstContaining(a + [e] + b, Key) == Some(|a|)
    decreases |a|
  {
    if |a| > 0 {
      assert (a + [e] + b)[1..] == a[1..] + [e] + b;
      FirstOfPayload(a[1..], e, b);
    }
  }

  /* A reply that is too short to hold "solution" fails at the search. */
  lemma ShortReplyHasNoSolution(text: string)
    requires |text| < |Key|
    ensures ExtractSolution(text) == Err(SolutionNotFound)
  {
    ShorterThanPattern(text, Key);
  }

  lemma {:induction false} ShorterThanPattern(s: string, p: string)
    requires |s| < |p|
    ensures !Contains(s, p)
    decreases |s|
  {
    if |s| > 0 {
      ShorterThanPattern(s[1..], p);
    }
  }
}
