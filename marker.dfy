/**
 * The `.pmr` marker: five `key=value` lines written by `CaseFile._update_repo_info`
 * and read back by the loop in `CaseFile.load_repo`.
 */
module Marker {
  import opened Wrappers
  import opened Errors
  import FileId

  /** `CaseFile.REPO_VERSION`, the only marker version the loader accepts. */
  const REPO_VERSION := 2
  /** `CaseFile.REPO_TYPE_FILE`, the only repository type whose criteria are checked. */
  const REPO_TYPE_FILE := 0

  /** Everything the marker records about one repository. */
  datatype RepoInfo = RepoInfo(
    repoType: int,
    repoVersion: int,
    criteria: string,
    version: int,
    ackVersion: int)

  // ---------------------------------------------------------------------------
  // Integers as text: `'{}'.format(n)` on the way out, `int(text)` on the way in.

  function DigitChar(d: nat): (c: char)
    requires d < 10
    ensures FileId.IsDigit(c)
  {
    ('0' as int + d) as char
  }

  function DigitValue(c: char): nat
    requires FileId.IsDigit(c)
  {
    c as int - '0' as int
  }

  /** Decimal digits of `n`, most significant first, no leading zeros. */
  function NatToText(n: nat): (s: string)
    ensures |s| >= 1 && FileId.AllDigits(s)
  {
    if n < 10 then [DigitChar(n)] else NatToText(n / 10) + [DigitChar(n % 10)]
  }

  /** `str(n)` / `'{}'.format(n)` for an int. */
  function IntToText(n: int): (s: string)
    ensures |s| >= 1 && '\n' !in s
  {
    if n < 0 then "-" + NatToText(-n) else NatToText(n)
  }

  /** The value of a string of decimal digits. */
  function DigitsValue(s: string): nat
    requires FileId.AllDigits(s)
  {
    if s == [] then 0 else DigitsValue(s[..|s| - 1]) * 10 + DigitValue(s[|s| - 1])
  }

  /** The characters `str.strip()` and `int()` treat as white space. */
  predicate IsSpace(c: char) {
    c == ' ' || c == '\t' || c == '\n' || c == '\r' || c as int == 11 || c as int == 12
  }

  function TrimLeft(s: string): string {
    if |s| > 0 && IsSpace(s[0]) then TrimLeft(s[1..]) else s
  }

  function TrimRight(s: string): string {
    if |s| > 0 && IsSpace(s[|s| - 1]) then TrimRight(s[..|s| - 1]) else s
  }

  /** Python's `int(text)`: surrounding white space, an optional sign, then one or more digits. */
  function ParseInt(text: string): Option<int> {
    var t := TrimRight(TrimLeft(text));
    if |t| >= 2 && (t[0] == '-' || t[0] == '+') && FileId.AllDigits(t[1..]) then
      var n: int := DigitsValue(t[1..]);
      Some(if t[0] == '-' then -n else n)
    else if |t| >= 1 && FileId.AllDigits(t) then
      Some(DigitsValue(t))
    else
      None
  }

  lemma {:induction false} DigitsValueOfNatToText(n: nat)
    ensures DigitsValue(NatToText(n)) == n
  {
    var s := NatToText(n);
    if n < 10 {
      assert s[..0] == [];
    } else {
      assert s[..|s| - 1] == NatToText(n / 10);
      DigitsValueOfNatToText(n / 10);
    }
  }

  /** `int(str(n)) == n` for every integer. */
  lemma ParseIntInvertsIntToText(n: int)
    ensures ParseInt(IntToText(n)) == Some(n)
  {
    var s := IntToText(n);
    var d := if n < 0 then NatToText(-n) else NatToText(n);
    assert !IsSpace(s[0]) && !IsSpace(s[|s| - 1]);
    assert TrimRight(TrimLeft(s)) == s;
    DigitsValueOfNatToText(if n < 0 then -n else n);
    if n < 0 {
      assert s[1..] == d;
    }
  }

  lemma ParseIntExamples()
    ensures ParseInt(" 7\t") == Some(7)
    ensures ParseInt("-0") == Some(0)
    ensures ParseInt("") == None
    ensures ParseInt("2a") == None
  {
    assert TrimRight(TrimLeft(" 7\t")) == "7";
    assert "-0"[1..] == "0";
    assert !FileId.IsDigit("2a"[1]);
  }

  // ---------------------------------------------------------------------------
  // Reading the marker: `for l in f: info.update([l[0:-1].split('=', 1)])`.

  /** Index of the first `c` in `s`, or `|s|` when there is none. */
  function Find(s: string, c: char): (i: nat)
    ensures i <= |s|
    ensures c !in s[..i]
    ensures i < |s| ==> s[i] == c
  {
    if s == [] then 0
    else if s[0] == c then 0
    else
      var j := Find(s[1..], c);
      assert s[..j + 1] == [s[0]] + s[1..][..j];
      1 + j
  }

  lemma FindAfterPrefix(a: string, c: char, b: string)
    requires c !in a
    ensures Find(a + [c] + b, c) == |a|
  {
    var s := a + [c] + b;
    assert s[..|a|] == a;
    assert s[|a|] == c;
  }

  /**
   * Python's iteration over a text file: each line keeps its '\n';
   * a last line without one is yielded as it is.
   */
  function Lines(t: string): (ls: seq<string>)
    ensures forall k :: 0 <= k < |ls| ==> |ls[k]| > 0
    decreases |t|
  {
    if t == [] then []
    else
      var i := Find(t, '\n');
      if i < |t| then [t[..i + 1]] + Lines(t[i + 1..]) else [t]
  }

  function Concat(ls: seq<string>): string {
    if ls == [] then [] else ls[0] + Concat(ls[1..])
  }

  /** Splitting into lines loses nothing: the lines put back together are the text. */
  lemma {:induction false} LinesConcat(t: string)
    ensures Concat(Lines(t)) == t
    decreases |t|
  {
    if t != [] {
      var i := Find(t, '\n');
      if i < |t| {
        LinesConcat(t[i + 1..]);
        assert t[..i + 1] + t[i + 1..] == t;
      } else {
        assert Concat([t]) == t + Concat([]);
      }
    }
  }

  /** Every line but the last ends with '\n'. */
  lemma {:induction false} LinesTerminated(t: string, k: nat)
    requires k + 1 < |Lines(t)|
    ensures Lines(t)[k][|Lines(t)[k]| - 1] == '\n'
    decreases |t|
  {
    var i := Find(t, '\n');
    if k > 0 {
      LinesTerminated(t[i + 1..], k - 1);
    }
  }

  lemma LinesOfTerminated(a: string, rest: string)
    requires '\n' !in a
    ensures Lines(a + "\n" + rest) == [a + "\n"] + Lines(rest)
  {
    var t := a + "\n" + rest;
    FindAfterPrefix(a, '\n', rest);
    assert t[..|a| + 1] == a + "\n";
    assert t[|a| + 1..] == rest;
  }

  /** `l[0:-1]`: drops the last character, whatever it is. */
  function Chop(l: string): string {
    if |l| == 0 then l else l[..|l| - 1]
  }

  /** `s.split('=', 1)` when it yields a key and a value; `None` when `s` holds no '='. */
  function SplitOnce(s: string): (r: Option<(string, string)>)
    ensures r.None? <==> '=' !in s
    ensures r.Some? ==> '=' !in r.value.0 && r.value.0 + "=" + r.value.1 == s
  {
    var i := Find(s, '=');
    if i < |s| then
      assert s[..i] + "=" + s[i + 1..] == s;
      Some((s[..i], s[i + 1..]))
    else
      assert s[..i] == s;
      None
  }

  /** The key ends at the FIRST '=', so a value may itself contain '='. */
  lemma SplitOnceOfEntry(k: string, v: string)
    requires '=' !in k
    ensures SplitOnce(k + "=" + v) == Some((k, v))
  {
    FindAfterPrefix(k, '=', v);
    var s := k + "=" + v;
    assert s[..|k|] == k && s[|k| + 1..] == v;
  }

  /** What the loader's loop computes from `acc` and the lines still to read; later keys win. */
  function Collect(acc: map<string, string>, lines: seq<string>): Result<map<string, string>, Failure>
    decreases |lines|
  {
    if lines == [] then Ok(acc)
    else
      match SplitOnce(Chop(lines[0]))
      case None => Err(MalformedLine(Chop(lines[0])))
      case Some((k, v)) => Collect(acc[k := v], lines[1..])
  }

  /** The `for l in f` loop of the loader, filling the `info` dictionary line by line. */
  method ReadInfo(text: string) returns (r: Result<map<string, string>, Failure>)
    ensures r == Collect(map[], Lines(text))
  {
    var lines := Lines(text);
    var info: map<string, string> := map[];
    var i := 0;
    while i < |lines|
      invariant 0 <= i <= |lines|
      invariant Collect(map[], lines) == Collect(info, lines[i..])
    {
      assert lines[i..][1..] == lines[i + 1..];
      var parts := SplitOnce(Chop(lines[i]));
      if parts.None? {
        return Err(MalformedLine(Chop(lines[i])));
      }
      info := info[parts.value.0 := parts.value.1];
      i := i + 1;
    }
    r := Ok(info);
  }

  // ---------------------------------------------------------------------------
  // Decoding the dictionary, in the order `load_repo` evaluates it.

  /** `info[key]`, raising `KeyError` when the key is absent. */
  function Field(info: map<string, string>, key: string): Result<string, Failure> {
    if key in info then Ok(info[key]) else Err(MissingKey(key))
  }

  /** `int(info[key])`. */
  function IntField(info: map<string, string>, key: string): Result<int, Failure> {
    var text :- Field(info, key);
    match ParseInt(text)
    case Some(n) => Ok(n)
    case None => Err(NotAnInteger(text))
  }

  /**
   * `repoVersion` is read and checked first; only then are criteria, type, version and
   * ackVersion looked up, so an unsupported version never yields a repository.
   */
  function Decode(info: map<string, string>): (r: Result<RepoInfo, Failure>)
    ensures "repoVersion" !in info ==> r == Err(MissingKey("repoVersion"))
    ensures "repoVersion" in info && ParseInt(info["repoVersion"]).None? ==>
      r == Err(NotAnInteger(info["repoVersion"]))
    ensures "repoVersion" in info && ParseInt(info["repoVersion"]).Some? ==>
      var found := ParseInt(info["repoVersion"]).value;
      found != REPO_VERSION ==> r == Err(UnsupportedRepoVersion(found))
    ensures r.Ok? ==> "repoVersion" in info && ParseInt(info["repoVersion"]) == Some(REPO_VERSION)
    ensures ("repoVersion" in info && ParseInt(info["repoVersion"]) == Some(REPO_VERSION) &&
             "criteria" in info &&
             "type" in info && ParseInt(info["type"]).Some? &&
             "version" in info && ParseInt(info["version"]).Some? &&
             "ackVersion" in info && ParseInt(info["ackVersion"]).Some?) ==>
      r.Ok?
    ensures r.Ok? ==>
      r.value.repoVersion == REPO_VERSION &&
      "criteria" in info && r.value.criteria == info["criteria"] &&
      "type" in info && ParseInt(info["type"]) == Some(r.value.repoType) &&
      "version" in info && ParseInt(info["version"]) == Some(r.value.version) &&
      "ackVersion" in info && ParseInt(info["ackVersion"]) == Some(r.value.ackVersion)
  {
    var repoVersion :- IntField(info, "repoVersion");
    if repoVersion != REPO_VERSION then Err(UnsupportedRepoVersion(repoVersion))
    else
      var criteria :- Field(info, "criteria");
      var repoType :- IntField(info, "type");
      var version :- IntField(info, "version");
      var ackVersion :- IntField(info, "ackVersion");
      Ok(RepoInfo(repoType, repoVersion, criteria, version, ackVersion))
  }

  /** The whole parse of a marker's text. */
  function LoadMarker(text: string): Result<RepoInfo, Failure> {
    var info :- Collect(map[], Lines(text));
    Decode(info)
  }

  // ---------------------------------------------------------------------------
  // Writing the marker: `_update_repo_info`.

  function Entry(key: string, value: string): string {
    key + "=" + value + "\n"
  }

  /** The lines of a marker, in the order `_update_repo_info` writes them. */
  function Fields(info: RepoInfo): seq<(string, string)> {
    [("type", IntToText(info.repoType)),
     ("repoVersion", IntToText(info.repoVersion)),
     ("criteria", info.criteria),
     ("version", IntToText(info.version)),
     ("ackVersion", IntToText(info.ackVersion))]
  }

  function Entries(kvs: seq<(string, string)>): string {
    if kvs == [] then "" else Entry(kvs[0].0, kvs[0].1) + Entries(kvs[1..])
  }

  /** The marker text `_update_repo_info` writes. */
  function Serialize(info: RepoInfo): string {
    Entries(Fields(info))
  }

  /** The dictionary after `info.update` with each pair in turn. */
  function Updated(acc: map<string, string>, kvs: seq<(string, string)>): map<string, string>
    decreases |kvs|
  {
    if kvs == [] then acc else Updated(acc[kvs[0].0 := kvs[0].1], kvs[1..])
  }

  /** A pair that survives one trip through a marker line. */
  predicate Writable(kv: (string, string)) {
    '=' !in kv.0 && '\n' !in kv.0 && '\n' !in kv.1
  }

  lemma CollectEntry(acc: map<string, string>, k: string, v: string, rest: string)
    requires '=' !in k && '\n' !in k && '\n' !in v
    ensures Collect(acc, Lines(Entry(k, v) + rest)) == Collect(acc[k := v], Lines(rest))
  {
    var body := k + "=" + v;
    assert Entry(k, v) + rest == body + "\n" + rest;
    LinesOfTerminated(body, rest);
    assert Chop(body + "\n") == body;
    SplitOnceOfEntry(k, v);
    assert ([body + "\n"] + Lines(rest))[1..] == Lines(rest);
  }

  /** Reading back written lines performs exactly the same dictionary updates, in order. */
  lemma {:induction false} CollectEntries(acc: map<string, string>, kvs: seq<(string, string)>, rest: string)
    requires forall i :: 0 <= i < |kvs| ==> Writable(kvs[i])
    ensures Collect(acc, Lines(Entries(kvs) + rest)) == Collect(Updated(acc, kvs), Lines(rest))
    decreases |kvs|
  {
    if kvs != [] {
      var k, v := kvs[0].0, kvs[0].1;
      var tail := Entries(kvs[1..]) + rest;
      assert Writable(kvs[0]);
      assert Entries(kvs) + rest == Entry(k, v) + tail;
      CollectEntry(acc, k, v, tail);
      CollectEntries(acc[k := v], kvs[1..], rest);
    } else {
      assert Entries(kvs) + rest == rest;
    }
  }

  lemma {:induction false} EntriesAppend(x: seq<(string, string)>, y: seq<(string, string)>)
    ensures Entries(x + y) == Entries(x) + Entries(y)
    decreases |x|
  {
    if x == [] {
      assert x + y == y;
    } else {
      assert (x + y)[0] == x[0];
      assert (x + y)[1..] == x[1..] + y;
      EntriesAppend(x[1..], y);
    }
  }

  /** The dictionary read back from a marker holds the five written fields. */
  lemma ReadBackFields(info: RepoInfo)
    requires '\n' !in info.criteria
    ensures Collect(map[], Lines(Serialize(info))) == Ok(map[
      "type" := IntToText(info.repoType),
      "repoVersion" := IntToText(info.repoVersion),
      "criteria" := info.criteria,
      "version" := IntToText(info.version),
      "ackVersion" := IntToText(info.ackVersion)])
  {
    var fs := Fields(info);
    assert forall i :: 0 <= i < |fs| ==> Writable(fs[i]);
    assert Entries(fs) + "" == Entries(fs);
    CollectEntries(map[], fs, "");
    var m: map<string, string> := map[];
    assert Updated(m, fs) == Updated(m[fs[0].0 := fs[0].1], fs[1..]);
    m := m[fs[0].0 := fs[0].1];
    assert Updated(m, fs[1..]) == Updated(m[fs[1].0 := fs[1].1], fs[2..]);
    m := m[fs[1].0 := fs[1].1];
    assert Updated(m, fs[2..]) == Updated(m[fs[2].0 := fs[2].1], fs[3..]);
    m := m[fs[2].0 := fs[2].1];
    assert Updated(m, fs[3..]) == Updated(m[fs[3].0 := fs[3].1], fs[4..]);
    m := m[fs[3].0 := fs[3].1];
    assert Updated(m, fs[4..]) == Updated(m[fs[4].0 := fs[4].1], fs[5..]);
  }

  /** Decoding the five written fields gives the repository back, or refuses its repoVersion. */
  lemma DecodeFields(info: RepoInfo)
    ensures Decode(map[
      "type" := IntToText(info.repoType),
      "repoVersion" := IntToText(info.repoVersion),
      "criteria" := info.criteria,
      "version" := IntToText(info.version),
      "ackVersion" := IntToText(info.ackVersion)]) ==
      if info.repoVersion == REPO_VERSION then Ok(info)
      else Err(UnsupportedRepoVersion(info.repoVersion))
  {
    var m := map[
      "type" := IntToText(info.repoType),
      "repoVersion" := IntToText(info.repoVersion),
      "criteria" := info.criteria,
      "version" := IntToText(info.version),
      "ackVersion" := IntToText(info.ackVersion)];
    assert IntField(m, "repoVersion") == Ok(info.repoVersion) by {
      ParseIntInvertsIntToText(info.repoVersion);
    }
    if info.repoVersion == REPO_VERSION {
      assert Field(m, "criteria") == Ok(info.criteria);
      assert IntField(m, "type") == Ok(info.repoType) by {
        ParseIntInvertsIntToText(info.repoType);
      }
      assert IntField(m, "version") == Ok(info.version) by {
        ParseIntInvertsIntToText(info.version);
      }
      assert IntField(m, "ackVersion") == Ok(info.ackVersion) by {
        ParseIntInvertsIntToText(info.ackVersion);
      }
    }
  }

  /**
   * Round trip: loading what `_update_repo_info` wrote gives back the same type, criteria,
   * version and ackVersion, provided the criteria hold no newline; a marker written with
   * another repoVersion is refused.
   */
  lemma LoadInvertsSerialize(info: RepoInfo)
    requires '\n' !in info.criteria
    ensures LoadMarker(Serialize(info)) ==
      if info.repoVersion == REPO_VERSION then Ok(info)
      else Err(UnsupportedRepoVersion(info.repoVersion))
  {
    ReadBackFields(info);
    DecodeFields(info);
  }

  /** A value holding a newline ends its line early; a following piece without '=' is refused. */
  lemma CollectSplitValue(acc: map<string, string>, k: string, a: string, b: string, rest: string)
    requires '=' !in k && '\n' !in k && '\n' !in a && '\n' !in b && '=' !in b
    ensures Collect(acc, Lines(Entry(k, a + "\n" + b) + rest)) == Err(MalformedLine(b))
  {
    var first := k + "=" + a;
    assert '\n' !in first;
    assert Entry(k, a + "\n" + b) + rest == first + "\n" + (b + "\n" + rest);
    LinesOfTerminated(first, b + "\n" + rest);
    LinesOfTerminated(b, rest);
    assert Chop(first + "\n") == first;
    SplitOnceOfEntry(k, a);
    assert Chop(b + "\n") == b;
    assert ([first + "\n"] + Lines(b + "\n" + rest))[1..] == [b + "\n"] + Lines(rest);
  }

  /**
   * The newline restriction is needed: criteria `a + "\n" + b` put a line `b` in the
   * marker, and when `b` holds no '=' the loader fails on it.
   */
  lemma NewlineInCriteriaBreaksLoad(info: RepoInfo, a: string, b: string)
    requires info.criteria == a + "\n" + b
    requires '\n' !in a && '\n' !in b && '=' !in b
    ensures LoadMarker(Serialize(info)) == Err(MalformedLine(b))
  {
    var fs := Fields(info);
    var rest := Entries(fs[3..]);
    EntriesAppend(fs[..2], fs[2..]);
    assert fs == fs[..2] + fs[2..];
    assert Entries(fs[2..]) == Entry("criteria", info.criteria) + rest by {
      assert fs[2..][1..] == fs[3..];
    }
    assert forall i :: 0 <= i < |fs[..2]| ==> Writable(fs[..2][i]);
    CollectEntries(map[], fs[..2], Entries(fs[2..]));
    assert '=' !in "criteria" && '\n' !in "criteria";
    CollectSplitValue(Updated(map[], fs[..2]), "criteria", a, b, rest);
  }
}
