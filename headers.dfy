/**
 * Response-header parsing (Http::parseHeaders) and request-header
 * serialisation (the "stringifying headers" loop of Http::perform).
 */
module Headers {
  import opened Wrappers
  import opened PhpStrings
  import opened Assoc

  /** A PHP array key: an integer, or a string that is not integer-like. */
  datatype Key = Idx(index: int) | Str(name: string)

  /** The array parseHeaders returns: bare lines under integer keys, named headers under their names. */
  type HeaderArray = seq<(Key, string)>

  /** The key PHP stores for `$a[$s]`: integer-like strings become integers. */
  function KeyOf(s: string): (k: Key)
    ensures k.Str? <==> IntegerKey(s).None?
    ensures k.Str? ==> k.name == s
  {
    match IntegerKey(s)
    case Some(n) => Idx(n)
    case None => Str(s)
  }

  /** The key `$a[] = $v` uses: one past the largest integer key, and at least 0. */
  function NextIndex(a: HeaderArray): (n: nat)
    ensures forall j :: 0 <= j < |a| && a[j].0.Idx? ==> a[j].0.index < n
    ensures n == 0 || exists j :: 0 <= j < |a| && a[j].0 == Idx(n - 1)
  {
    if a == [] then 0
    else
      var m := NextIndex(a[1..]);
      assert forall j :: 0 <= j < |a| - 1 ==> a[1..][j] == a[j + 1];
      match a[0].0
      case Idx(i) => if i + 1 > m then i + 1 else m
      case Str(_) => m
  }

  /** `$a[] = $v`. */
  function Push(a: HeaderArray, v: string): HeaderArray
  {
    a + [(Idx(NextIndex(a)), v)]
  }

  /** The key `$a[]` picks is one the array does not have yet, so keys stay distinct. */
  lemma PushDistinct(a: HeaderArray, v: string)
    requires DistinctKeys(a)
    ensures Lookup(a, Idx(NextIndex(a))).None?
    ensures DistinctKeys(Push(a, v))
  {
    LookupNone(a, Idx(NextIndex(a)));
  }

  /** What one header line does to the array being built. */
  function Step(a: HeaderArray, line: string): HeaderArray
  {
    match SplitFirst(line, ':')
    case None => Push(a, line)
    case Some((k, v)) => Set(a, KeyOf(Trim(k)), Trim(v))
  }

  /** The array parseHeaders builds from the lines src, entry by entry. */
  function HeadersOf(src: seq<string>): HeaderArray
  {
    if src == [] then [] else Step(HeadersOf(src[..|src| - 1]), src[|src| - 1])
  }

  /** Every key of the parsed array occurs once. */
  lemma {:induction false} HeadersDistinct(src: seq<string>)
    ensures DistinctKeys(HeadersOf(src))
  {
    if src != [] {
      var a := HeadersOf(src[..|src| - 1]);
      HeadersDistinct(src[..|src| - 1]);
      match SplitFirst(src[|src| - 1], ':')
      case None => PushDistinct(a, src[|src| - 1]);
      case Some((k, v)) => SetDistinct(a, KeyOf(Trim(k)), Trim(v));
    }
  }

  /** Http::parseHeaders: the foreach loop over the response lines. */
  method ParseHeaders(src: seq<string>) returns (headers: HeaderArray)
    ensures headers == HeadersOf(src)
  {
    headers := [];
    for n := 0 to |src|
      invariant headers == HeadersOf(src[..n])
    {
      assert src[..n + 1][..n] == src[..n];
      var row := SplitFirst(src[n], ':');
      if row.None? {
        headers := headers + [(Idx(NextIndex(headers)), src[n])];
        continue;
      }
      var key := Trim(row.value.0);
      var val := Trim(row.value.1);
      headers := Set(headers, KeyOf(key), val);
    }
    assert src[..|src|] == src;
  }

  /**
   * Reference reading of a named header: scanning from the last line back,
   * the first line with a colon whose trimmed part before the first colon is
   * name gives the trimmed part after it.
   */
  function LastValue(src: seq<string>, name: string): Option<string>
  {
    if src == [] then None
    else match SplitFirst(src[|src| - 1], ':')
      case Some((k, v)) =>
        if Trim(k) == name then Some(Trim(v)) else LastValue(src[..|src| - 1], name)
      case None => LastValue(src[..|src| - 1], name)
  }

  /**
   * A named header's value in the parsed array is the trimmed value of the
   * LAST line carrying that name; lines are split at their first colon only.
   */
  lemma {:induction false} LookupIsLastValue(src: seq<string>, name: string)
    requires IntegerKey(name).None?
    ensures Lookup(HeadersOf(src), Str(name)) == LastValue(src, name)
  {
    if src != [] {
      var init, line := src[..|src| - 1], src[|src| - 1];
      var a := HeadersOf(init);
      LookupIsLastValue(init, name);
      match SplitFirst(line, ':')
      case None =>
        LookupAppend(a, [(Idx(NextIndex(a)), line)], Str(name));
      case Some((k, v)) =>
    }
  }

  /** The lines without a colon, in order. */
  function BareLines(src: seq<string>): seq<string>
  {
    if src == [] then []
    else BareLines(src[..|src| - 1]) + (if ':' in src[|src| - 1] then [] else [src[|src| - 1]])
  }

  /** The values stored under integer keys, in array order. */
  function BareValues(a: HeaderArray): seq<string>
  {
    if a == [] then [] else (if a[0].0.Idx? then [a[0].1] else []) + BareValues(a[1..])
  }

  lemma {:induction false} BareValuesAppend(x: HeaderArray, y: HeaderArray)
    ensures BareValues(x + y) == BareValues(x) + BareValues(y)
  {
    if x == [] {
      assert x + y == y;
    } else {
      var h := if x[0].0.Idx? then [x[0].1] else [];
      assert (x + y)[0] == x[0];
      assert (x + y)[1..] == x[1..] + y;
      assert BareValues(x + y) == h + BareValues(x[1..] + y);
      BareValuesAppend(x[1..], y);
      assert BareValues(x) == h + BareValues(x[1..]);
    }
  }

  lemma {:induction false} BareValuesSetName(a: HeaderArray, name: string, v: string)
    ensures BareValues(Set(a, Str(name), v)) == BareValues(a)
  {
    if a == [] {
      assert BareValues([(Str(name), v)]) == [];
    } else if a[0].0 == Str(name) {
      assert Set(a, Str(name), v)[1..] == a[1..];
    } else {
      var r := Set(a, Str(name), v);
      assert r[0] == a[0] && r[1..] == Set(a[1..], Str(name), v);
      BareValuesSetName(a[1..], name, v);
    }
  }

  /** No line's name (the trimmed text before its first colon) is integer-like. */
  predicate NamedOnly(src: seq<string>) {
    forall i :: 0 <= i < |src| && ':' in src[i] ==> IntegerKey(Trim(SplitFirst(src[i], ':').value.0)).None?
  }

  /**
   * Lines without a colon are kept untrimmed and in order under integer keys,
   * as long as no named line uses an integer-like name (PHP would store that
   * under an integer key too).
   */
  lemma {:induction false} BareLinesKept(src: seq<string>)
    requires NamedOnly(src)
    ensures BareValues(HeadersOf(src)) == BareLines(src)
  {
    if src != [] {
      var init, line := src[..|src| - 1], src[|src| - 1];
      assert NamedOnly(init) by {
        forall i | 0 <= i < |init| ensures init[i] == src[i] { }
      }
      BareLinesKept(init);
      var a := HeadersOf(init);
      match SplitFirst(line, ':')
      case None =>
        BareValuesAppend(a, [(Idx(NextIndex(a)), line)]);
      case Some((k, v)) =>
        assert ':' in src[|src| - 1];
        BareValuesSetName(a, Trim(k), Trim(v));
    }
  }

  /** A line without a colon is pushed as it is. */
  lemma StepBare(a: HeaderArray, line: string)
    requires ':' !in line
    ensures Step(a, line) == a + [(Idx(NextIndex(a)), line)]
  {
  }

  /** A line "k: v" whose parts need no trimming sets header k to v. */
  lemma StepNamed(a: HeaderArray, k: string, v: string)
    requires ':' !in k && Trim(k) == k && Trim(v) == v && IntegerKey(k).None?
    ensures Step(a, HeaderLine((k, v))) == Set(a, Str(k), v)
  {
    var line := HeaderLine((k, v));
    assert line == k + [':'] + (" " + v);
    SplitFirstAt(k, ':', " " + v);
    assert SplitFirst(line, ':') == Some((k, " " + v));
    TrimDropsLeadingSpace(v);
    assert KeyOf(Trim(k)) == Str(k) && Trim(" " + v) == v;
  }

  /** One serialised header line parses back to the one header. */
  lemma SingleNamed(k: string, v: string)
    requires ':' !in k && Trim(k) == k && Trim(v) == v && IntegerKey(k).None?
    ensures HeadersOf([HeaderLine((k, v))]) == [(Str(k), v)]
  {
    var line := HeaderLine((k, v));
    assert [line][..0] == [];
    assert HeadersOf([line]) == Step([], line);
    StepNamed([], k, v);
  }

  lemma HeadersOfTwo(x: string, y: string)
    ensures HeadersOf([x, y]) == Step(Step([], x), y)
  {
    assert [x, y][..1] == [x];
    assert [x][..0] == [];
    assert HeadersOf([x]) == Step([], x);
  }

  lemma StepFirstBare(status: string)
    requires ':' !in status
    ensures Step([], status) == [(Idx(0), status)]
  {
    StepBare([], status);
    assert NextIndex([]) == 0;
  }

  lemma StepSecondNamed(status: string, k: string, v: string)
    requires ':' !in k && Trim(k) == k && Trim(v) == v && IntegerKey(k).None?
    ensures Step([(Idx(0), status)], HeaderLine((k, v))) == [(Idx(0), status), (Str(k), v)]
  {
    StepNamed([(Idx(0), status)], k, v);
    SetAfterOther((Idx(0), status), Str(k), v);
  }

  /** A status line followed by one named header. */
  lemma StatusThenNamed(status: string, k: string, v: string)
    requires ':' !in status
    requires ':' !in k && Trim(k) == k && Trim(v) == v && IntegerKey(k).None?
    ensures HeadersOf([status, HeaderLine((k, v))]) == [(Idx(0), status), (Str(k), v)]
  {
    HeadersOfTwo(status, HeaderLine((k, v)));
    StepFirstBare(status);
    StepSecondNamed(status, k, v);
  }

  lemma ContentTypeIsPlain()
    ensures ':' !in "Content-Type" && Trim("Content-Type") == "Content-Type"
    ensures IntegerKey("Content-Type").None?
    ensures Trim("application/json") == "application/json"
  {
    ContentTypeName();
    ContentTypeTrimmed();
    JsonTypeTrimmed();
  }

  lemma ContentTypeName()
    ensures ':' !in "Content-Type" && IntegerKey("Content-Type").None?
  {
    NoLetterNoIntegerKey("Content-Type", 0);
  }

  lemma ContentTypeTrimmed()
    ensures Trim("Content-Type") == "Content-Type"
  {
    TrimOfTrimmed("Content-Type");
  }

  lemma JsonTypeTrimmed()
    ensures Trim("application/json") == "application/json"
  {
    TrimOfTrimmed("application/json");
  }

  lemma ContentTypeLine()
    ensures HeaderLine(("Content-Type", "application/json")) == "Content-Type: application/json"
  {
  }

  /** A status line and one named header, as a server sends them. */
  lemma StatusLineAndContentType()
    ensures HeadersOf(["HTTP/1.1 200 OK", "Content-Type: application/json"])
         == [(Idx(0), "HTTP/1.1 200 OK"), (Str("Content-Type"), "application/json")]
  {
    assert ':' !in "HTTP/1.1 200 OK";
    ContentTypeIsPlain();
    ContentTypeLine();
    StatusThenNamed("HTTP/1.1 200 OK", "Content-Type", "application/json");
  }

  lemma NamedLine(k: string, v: string)
    requires ':' !in k && IntegerKey(Trim(k)).None?
    ensures HeadersOf([k + [':'] + v]) == [(Str(Trim(k)), Trim(v))]
  {
    assert [k + [':'] + v][..0] == [];
    SplitFirstAt(k, ':', v);
  }

  lemma AbcSplit()
    ensures "a:b:c" == "a" + [':'] + "b:c"
  {
  }

  lemma AbcTrimmed()
    ensures Trim("a") == "a" && Trim("b:c") == "b:c"
  {
    TrimOfTrimmed("a");
    TrimOfTrimmed("b:c");
  }

  lemma AbcName()
    ensures ':' !in "a" && IntegerKey("a").None?
  {
    NoLetterNoIntegerKey("a", 0);
  }

  /** Only the first colon splits: "a:b:c" is header a with value "b:c". */
  lemma FirstColonSplits()
    ensures HeadersOf(["a:b:c"]) == [(Str("a"), "b:c")]
  {
    AbcSplit();
    AbcTrimmed();
    AbcName();
    NamedLine("a", "b:c");
  }

  // ---- request headers ----

  /** One request header line without its terminator: `$k . ': ' . $v`. */
  function HeaderLine(h: (string, string)): string {
    h.0 + ": " + h.1
  }

  function Lines(hs: seq<(string, string)>): (ls: seq<string>)
    ensures |ls| == |hs|
    ensures forall i :: 0 <= i < |hs| ==> ls[i] == HeaderLine(hs[i])
  {
    seq(|hs|, i requires 0 <= i < |hs| => HeaderLine(hs[i]))
  }

  /** The lines, each followed by CRLF, concatenated in order. */
  function CrlfJoined(ls: seq<string>): string
  {
    if ls == [] then "" else ls[0] + "\r\n" + CrlfJoined(ls[1..])
  }

  lemma {:induction false} CrlfJoinedSnoc(ls: seq<string>, l: string)
    ensures CrlfJoined(ls + [l]) == CrlfJoined(ls) + l + "\r\n"
  {
    if ls == [] {
      assert [] + [l] == [l];
    } else {
      assert (ls + [l])[0] == ls[0];
      assert (ls + [l])[1..] == ls[1..] + [l];
      CrlfJoinedSnoc(ls[1..], l);
    }
  }

  /** The header string the request context carries. */
  function HeaderString(hs: seq<(string, string)>): string
  {
    CrlfJoined(Lines(hs))
  }

  /**
   * The "stringifying headers" block of Http::perform: when the header map is
   * non-empty the context gets the CRLF-terminated lines, otherwise no header
   * field at all.
   */
  method StringifyHeaders(hs: seq<(string, string)>) returns (header: Option<string>)
    ensures header.None? <==> hs == []
    ensures header.Some? ==> header.value == HeaderString(hs)
  {
    if hs == [] {
      return None;
    }
    var s := "";
    for i := 0 to |hs|
      invariant s == CrlfJoined(Lines(hs[..i]))
    {
      assert Lines(hs[..i + 1]) == Lines(hs[..i]) + [HeaderLine(hs[i])];
      CrlfJoinedSnoc(Lines(hs[..i]), HeaderLine(hs[i]));
      s := s + hs[i].0 + ": " + hs[i].1 + "\r\n";
    }
    assert hs[..|hs|] == hs;
    header := Some(s);
  }

  /** Each line with "\r" kept, as explode("\n", ...) cuts a CRLF-joined string. */
  function WithCr(ls: seq<string>): (r: seq<string>)
    ensures |r| == |ls|
    ensures forall i :: 0 <= i < |ls| ==> r[i] == ls[i] + "\r"
  {
    seq(|ls|, i requires 0 <= i < |ls| => ls[i] + "\r")
  }

  /**
   * Cutting the CRLF-joined lines at every line feed gives back each line (with
   * its carriage return) in order, and an empty remainder: every line, the
   * last one included, ends in CRLF.
   */
  lemma {:induction false} ExplodeCrlfJoined(ls: seq<string>)
    requires forall i :: 0 <= i < |ls| ==> '\n' !in ls[i]
    ensures Explode(CrlfJoined(ls), '\n') == WithCr(ls) + [""]
  {
    if ls == [] {
      assert Explode("", '\n') == [""];
    } else {
      var tail := ls[1..];
      assert forall i :: 0 <= i < |tail| ==> tail[i] == ls[i + 1];
      CrlfJoinedCons(ls);
      ExplodeAfterLine(ls[0], CrlfJoined(tail));
      ExplodeCrlfJoined(tail);
      WithCrCons(ls);
      AssocSnoc([ls[0] + "\r"], WithCr(tail), "");
    }
  }

  lemma WithCrCons(ls: seq<string>)
    requires ls != []
    ensures WithCr(ls) == [ls[0] + "\r"] + WithCr(ls[1..])
  {
  }

  lemma AssocSnoc(a: seq<string>, b: seq<string>, x: string)
    ensures a + (b + [x]) == (a + b) + [x]
  {
  }

  lemma CrlfJoinedCons(ls: seq<string>)
    requires ls != []
    ensures CrlfJoined(ls) == (ls[0] + "\r") + ['\n'] + CrlfJoined(ls[1..])
  {
  }

  /** explode("\n") cuts a line and its CRLF off the front. */
  lemma ExplodeAfterLine(l: string, rest: string)
    requires '\n' !in l
    ensures Explode((l + "\r") + ['\n'] + rest, '\n') == [l + "\r"] + Explode(rest, '\n')
  {
    SplitFirstAt(l + "\r", '\n', rest);
  }

  /** The serialised header string is one CRLF-terminated "name: value" line per entry, in order. */
  lemma HeaderStringIsLines(hs: seq<(string, string)>)
    requires forall i :: 0 <= i < |hs| ==> '\n' !in HeaderLine(hs[i])
    ensures Explode(HeaderString(hs), '\n') == WithCr(Lines(hs)) + [""]
  {
    ExplodeCrlfJoined(Lines(hs));
  }

  /** Request headers whose names and values survive parsing unchanged. */
  predicate Parseable(hs: seq<(string, string)>) {
    && DistinctKeys(hs)
    && forall i :: 0 <= i < |hs| ==>
         && ':' !in hs[i].0
         && Trim(hs[i].0) == hs[i].0
         && Trim(hs[i].1) == hs[i].1
         && IntegerKey(hs[i].0).None?
  }

  function Named(hs: seq<(string, string)>): (a: HeaderArray)
    ensures |a| == |hs|
    ensures forall i :: 0 <= i < |hs| ==> a[i] == (Str(hs[i].0), hs[i].1)
  {
    seq(|hs|, i requires 0 <= i < |hs| => (Str(hs[i].0), hs[i].1))
  }

  /** parseHeaders reads back what the serialisation writes, in order. */
  lemma {:induction false} ParseSerialised(hs: seq<(string, string)>)
    requires Parseable(hs)
    ensures HeadersOf(Lines(hs)) == Named(hs)
  {
    if hs != [] {
      var n := |hs| - 1;
      var init := hs[..n];
      ParseablePrefix(hs, n);
      ParseSerialised(init);
      var line := HeaderLine(hs[n]);
      assert HeadersOf(Lines(hs)) == Step(HeadersOf(Lines(init)), line) by {
        LinesSnoc(hs, n);
      }
      StepNamed(Named(init), hs[n].0, hs[n].1);
      NamedFresh(hs, n);
      SetNew(Named(init), Str(hs[n].0), hs[n].1);
      NamedSnoc(hs, n);
    }
  }

  lemma NamedSnoc(hs: seq<(string, string)>, n: nat)
    requires n == |hs| - 1
    ensures Named(hs[..n]) + [(Str(hs[n].0), hs[n].1)] == Named(hs)
  {
    var l, r := Named(hs[..n]) + [(Str(hs[n].0), hs[n].1)], Named(hs);
    assert |l| == |r|;
    forall i | 0 <= i < |l| ensures l[i] == r[i] {
      if i < n {
        assert hs[..n][i] == hs[i];
      }
    }
  }

  lemma ParseablePrefix(hs: seq<(string, string)>, n: nat)
    requires Parseable(hs) && n <= |hs|
    ensures Parseable(hs[..n])
  {
    assert forall i :: 0 <= i < n ==> hs[..n][i] == hs[i];
  }

  lemma LinesSnoc(hs: seq<(string, string)>, n: nat)
    requires n == |hs| - 1
    ensures Lines(hs)[..n] == Lines(hs[..n]) && Lines(hs)[n] == HeaderLine(hs[n])
  {
  }

  lemma NamedFresh(hs: seq<(string, string)>, n: nat)
    requires DistinctKeys(hs) && n < |hs|
    ensures Lookup(Named(hs[..n]), Str(hs[n].0)).None?
  {
    var a := Named(hs[..n]);
    forall i | 0 <= i < |a| ensures a[i].0 != Str(hs[n].0) {
      assert hs[..n][i] == hs[i];
    }
    LookupNone(a, Str(hs[n].0));
  }
}
