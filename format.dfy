/** The strings the packer builds: the pack specifier and command, the
    success line of one pack (packDependency, packageDependencies.ts:57-74),
    the decimal rendering of the numbers it prints, and the line count of the
    package manager's flat listing (countDependencies,
    packageDependencies.ts:33-36). */
module Format {
  import opened Deps

  const DestinationFolder: string := "./packed"

  /** JavaScript truthiness of an optional version: absent and "" are false. */
  predicate Truthy(version: Option<string>) {
    version.Some? && version.value != ""
  }

  /** The version as far as the output can tell: the empty string is
      indistinguishable from an absent one. */
  function Shown(version: Option<string>): Option<string> {
    if Truthy(version) then version else None
  }

  /** `name`, followed by `sep` and the version when the version is truthy. */
  function Qualified(name: string, version: Option<string>, sep: char): string {
    if Truthy(version) then name + [sep] + version.value else name
  }

  /** The argument given to `npm pack`: `name` or `name@version`. */
  function Specifier(name: string, version: Option<string>): string {
    Qualified(name, version, '@')
  }

  /** The full pack command for one package. */
  function PackCommand(name: string, version: Option<string>): string {
    "npm pack " + Specifier(name, version) + " --pack-destination " + DestinationFolder
  }

  /** The command splits back into `npm pack`, the package with its shown
      version, and the destination folder. */
  lemma PackCommandRoundTrip(name: string, version: Option<string>)
    requires PlainName(name)
    requires version.Some? ==> forall k :: 0 <= k < |version.value| ==> version.value[k] != '@'
    ensures var c := PackCommand(name, version);
            var head, tail := "npm pack ", " --pack-destination ./packed";
            && |head| + |tail| <= |c|
            && c[..|head|] == head
            && c[|c| - |tail|..] == tail
            && SplitSpecifier(c[|head|..|c| - |tail|]) == (name, Shown(version))
  {
    var c := PackCommand(name, version);
    var head, tail := "npm pack ", " --pack-destination ./packed";
    var spec := Specifier(name, version);
    assert c == head + spec + tail;
    assert c[..|head|] == head;
    assert c[|c| - |tail|..] == tail;
    assert c[|head|..|c| - |tail|] == spec;
    SpecifierRoundTrip(name, version);
  }

  /** A falsy version, absent or empty, leaves no trace in what is printed:
      the specifier is the bare name exactly when the version is falsy, and
      the success line for an empty version is that for an absent one. */
  lemma FalsyVersionIsDropped(index: nat, name: string, version: Option<string>)
    ensures Specifier(name, version) == name <==> !Truthy(version)
    ensures SuccessLine(index, name, Some("")) == SuccessLine(index, name, None)
  {
    if Truthy(version) {
      assert |Specifier(name, version)| > |name|;
    }
  }

  /** The line logged after a successful pack: `> [index]: name[:version]`. */
  function SuccessLine(index: nat, name: string, version: Option<string>): string {
    "> [" + Decimal(index) + "]: " + Qualified(name, version, ':')
  }

  // ---------------------------------------------------------------------
  // Decimal numbers, as a template literal renders a non-negative integer

  function DigitChar(d: nat): (c: char)
    requires d < 10
    ensures '0' <= c <= '9'
  {
    "0123456789"[d]
  }

  function DigitValue(c: char): nat
    requires IsDigit(c)
  {
    (c - '0') as nat
  }

  predicate IsDigit(c: char) {
    '0' <= c <= '9'
  }

  function Decimal(n: nat): (r: string)
    ensures 1 <= |r|
    ensures forall k :: 0 <= k < |r| ==> IsDigit(r[k])
    ensures |r| > 1 ==> r[0] != '0'
    decreases n
  {
    if n < 10 then [DigitChar(n)] else Decimal(n / 10) + [DigitChar(n % 10)]
  }

  function ParseDecimal(s: string): nat
    requires forall k :: 0 <= k < |s| ==> IsDigit(s[k])
  {
    if s == [] then 0 else 10 * ParseDecimal(s[..|s| - 1]) + DigitValue(s[|s| - 1])
  }

  /** Reading back a rendered number gives the number. */
  lemma {:induction false} DecimalRoundTrip(n: nat)
    ensures ParseDecimal(Decimal(n)) == n
    decreases n
  {
    var r := Decimal(n);
    if n < 10 {
      assert r[..|r| - 1] == [];
    } else {
      assert r[..|r| - 1] == Decimal(n / 10);
      DecimalRoundTrip(n / 10);
    }
  }

  // ---------------------------------------------------------------------
  // Reading a specifier or a success line back

  /** The position of the last `c` in `s`, if any. */
  function LastIndexOf(s: string, c: char): (r: Option<nat>)
    ensures r.Some? ==> r.value < |s| && s[r.value] == c
    ensures r.Some? ==> forall k :: r.value < k < |s| ==> s[k] != c
    ensures r.None? ==> forall k :: 0 <= k < |s| ==> s[k] != c
  {
    if s == [] then None
    else if s[|s| - 1] == c then Some(|s| - 1)
    else LastIndexOf(s[..|s| - 1], c)
  }

  /** The position of the first `c` in `s`, if any. */
  function IndexOf(s: string, c: char): (r: Option<nat>)
    ensures r.Some? ==> r.value < |s| && s[r.value] == c
    ensures r.Some? ==> forall k :: 0 <= k < r.value ==> s[k] != c
    ensures r.None? ==> forall k :: 0 <= k < |s| ==> s[k] != c
  {
    if s == [] then None
    else if s[0] == c then Some(0)
    else match IndexOf(s[1..], c)
      case None => None
      case Some(k) => Some(k + 1)
  }

  /** The first `c` of `a + b` is the first of `b` when `a` has none and `b`
      starts with one. */
  lemma IndexOfAfter(a: string, b: string, c: char)
    requires forall k :: 0 <= k < |a| ==> a[k] != c
    requires |b| > 0 && b[0] == c
    ensures IndexOf(a + b, c) == Some(|a|)
  {
    var r := IndexOf(a + b, c);
    assert (a + b)[|a|] == c;
  }

  /** Splits a specifier at its last `@` that is not its first character
      (a scoped name such as `@scope/pkg` starts with one). */
  function SplitSpecifier(s: string): (string, Option<string>) {
    match LastIndexOf(s, '@')
    case Some(k) =>
      if k > 0 then (s[..k], Some(s[k + 1..])) else (s, None)
    case None => (s, None)
  }

  /** A package name as the registry allows it: not empty, and `@` only as
      the first character of a scope. */
  predicate PlainName(name: string) {
    |name| > 0 && forall k :: 0 < k < |name| ==> name[k] != '@'
  }

  /** The specifier names the package and the version it pins, and the
      pinned version is `None` exactly when the source's `version` is
      falsy. */
  lemma SpecifierRoundTrip(name: string, version: Option<string>)
    requires PlainName(name)
    requires version.Some? ==> forall k :: 0 <= k < |version.value| ==> version.value[k] != '@'
    ensures SplitSpecifier(Specifier(name, version)) == (name, Shown(version))
  {
    var s := Specifier(name, version);
    if Truthy(version) {
      assert s[|name|] == '@';
      assert s[..|name|] == name;
      assert s[|name| + 1..] == version.value;
    } else {
      assert s == name;
      match LastIndexOf(s, '@') {
        case None =>
        case Some(k) => assert k == 0;
      }
    }
  }

  /** A name and version joined by `sep`, split again at the first `sep`. */
  function SplitQualified(body: string, sep: char): (string, Option<string>) {
    match IndexOf(body, sep)
    case None => (body, None)
    case Some(c) => (body[..c], Some(body[c + 1..]))
  }

  /** A success line split into the index, the name and the shown version;
      names never contain `:`. */
  function ParseSuccessLine(line: string): Option<(nat, string, Option<string>)> {
    if |line| < 3 || line[..3] != "> [" then None
    else
      var rest := line[3..];
      match IndexOf(rest, ']')
      case None => None
      case Some(close) =>
        var digits := rest[..close];
        var tail := rest[close + 1..];
        if |digits| == 0 || (exists k :: 0 <= k < |digits| && !IsDigit(digits[k]))
           || |tail| < 2 || tail[..2] != ": " then None
        else
          var (name, version) := SplitQualified(tail[2..], ':');
          Some((ParseDecimal(digits), name, version))
  }

  lemma QualifiedRoundTrip(name: string, version: Option<string>, sep: char)
    requires forall k :: 0 <= k < |name| ==> name[k] != sep
    ensures SplitQualified(Qualified(name, version, sep), sep) == (name, Shown(version))
  {
    var q := Qualified(name, version, sep);
    if Truthy(version) {
      assert q == name + ([sep] + version.value);
      IndexOfAfter(name, [sep] + version.value, sep);
      assert q[..|name|] == name;
      assert q[|name| + 1..] == version.value;
    }
  }

  /** The index part of a success line reads back as the index, and the
      rest is what follows `]: `. */
  lemma SuccessLineHeader(index: nat, body: string)
    ensures var line := "> [" + Decimal(index) + "]: " + body;
            ParseSuccessLine(line) == Some((index, SplitQualified(body, ':').0, SplitQualified(body, ':').1))
  {
    var digits := Decimal(index);
    var line := "> [" + digits + "]: " + body;
    assert line[..3] == "> [";
    var rest := line[3..];
    assert rest == digits + ("]: " + body);
    IndexOfAfter(digits, "]: " + body, ']');
    assert rest[..|digits|] == digits;
    var tail := rest[|digits| + 1..];
    assert tail == ": " + body;
    assert tail[..2] == ": ";
    assert tail[2..] == body;
    DecimalRoundTrip(index);
  }

  /** The success line names the pack's index, its package and its version,
      the version being shown (after `:`, not `@`) exactly when it is
      truthy. */
  lemma SuccessLineRoundTrip(index: nat, name: string, version: Option<string>)
    requires forall k :: 0 <= k < |name| ==> name[k] != ':'
    ensures ParseSuccessLine(SuccessLine(index, name, version)) == Some((index, name, Shown(version)))
  {
    SuccessLineHeader(index, Qualified(name, version, ':'));
    QualifiedRoundTrip(name, version, ':');
  }

  // ---------------------------------------------------------------------
  // countDependencies: `output.split("\n").length`

  /** `s.split(sep)` for a one-character separator: the pieces between the
      separators, empty ones included. */
  function Split(s: string, sep: char): (pieces: seq<string>)
    ensures |pieces| >= 1
    ensures forall p, k :: p in pieces && 0 <= k < |p| ==> p[k] != sep
  {
    match IndexOf(s, sep)
    case None => [s]
    case Some(k) => [s[..k]] + Split(s[k + 1..], sep)
  }

  /** `pieces.join(sep)`. */
  function Join(pieces: seq<string>, sep: char): string {
    if |pieces| == 0 then ""
    else if |pieces| == 1 then pieces[0]
    else pieces[0] + [sep] + Join(pieces[1..], sep)
  }

  function Occurrences(s: string, c: char): nat {
    if s == [] then 0 else (if s[0] == c then 1 else 0) + Occurrences(s[1..], c)
  }

  /** The count the packer reports for the flat listing. */
  function LineCount(output: string): nat {
    |Split(output, '\n')|
  }

  /** Joining the pieces again gives back the text that was split. */
  lemma {:induction false} SplitJoin(s: string, sep: char)
    ensures Join(Split(s, sep), sep) == s
    decreases |s|
  {
    match IndexOf(s, sep) {
      case None =>
      case Some(k) =>
        var rest := Split(s[k + 1..], sep);
        SplitJoin(s[k + 1..], sep);
        var pieces := [s[..k]] + rest;
        assert pieces[0] == s[..k] && pieces[1..] == rest;
        assert Join(pieces, sep) == s[..k] + [sep] + Join(rest, sep);
        assert s == s[..k] + [sep] + s[k + 1..];
    }
  }

  lemma {:induction false} OccurrencesAppend(a: string, b: string, c: char)
    ensures Occurrences(a + b, c) == Occurrences(a, c) + Occurrences(b, c)
    decreases |a|
  {
    if a == [] {
      assert a + b == b;
    } else {
      assert (a + b)[0] == a[0];
      assert (a + b)[1..] == a[1..] + b;
      OccurrencesAppend(a[1..], b, c);
    }
  }

  lemma {:induction false} OccurrencesNone(s: string, c: char)
    requires forall k :: 0 <= k < |s| ==> s[k] != c
    ensures Occurrences(s, c) == 0
    decreases |s|
  {
    if s != [] {
      OccurrencesNone(s[1..], c);
    }
  }

  /** The line count is the number of newlines plus one. */
  lemma {:induction false} LineCountIsNewlinesPlusOne(output: string)
    ensures LineCount(output) == Occurrences(output, '\n') + 1
    decreases |output|
  {
    match IndexOf(output, '\n') {
      case None =>
        OccurrencesNone(output, '\n');
      case Some(k) =>
        LineCountIsNewlinesPlusOne(output[k + 1..]);
        assert output == output[..k] + ("\n" + output[k + 1..]);
        OccurrencesAppend(output[..k], "\n" + output[k + 1..], '\n');
        OccurrencesNone(output[..k], '\n');
        assert ("\n" + output[k + 1..])[1..] == output[k + 1..];
    }
  }

  /** A trailing newline, as a command's output usually has, adds one to
      the count. */
  lemma TrailingNewlineCounts(output: string)
    ensures LineCount(output + "\n") == LineCount(output) + 1
  {
    LineCountIsNewlinesPlusOne(output);
    LineCountIsNewlinesPlusOne(output + "\n");
    OccurrencesAppend(output, "\n", '\n');
  }
}
