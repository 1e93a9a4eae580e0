/** Names of the Jobs and ConfigMaps the operator generates (`dnsLabel` and the four name builders). */
module Names {
  import opened Decimal
  import opened Schedule

  predicate LabelChar(c: char) { 'a' <= c <= 'z' || '0' <= c <= '9' || c == '-' }

  /** Section 2.1 of RFC 1123 with section 2.3.1 of RFC 1035, in lower case. */
  predicate ValidLabel(s: string) {
    1 <= |s| <= 63 && (forall i :: 0 <= i < |s| ==> LabelChar(s[i])) && s[0] != '-' && s[|s| - 1] != '-'
  }

  /** `strings.ToLower`, one character at a time: it keeps the characters of labels. */
  ghost predicate IsLower(lower: char -> char) {
    forall c :: LabelChar(c) ==> lower(c) == c
  }

  /** The first eight hexadecimal digits of a hash. */
  ghost predicate IsHash(hash: string -> string) {
    forall s :: |hash(s)| == 8 && forall i :: 0 <= i < 8 ==> '0' <= hash(s)[i] <= '9' || 'a' <= hash(s)[i] <= 'f'
  }

  function Allowed(c: char): char {
    if LabelChar(c) then c else '-'
  }

  function Mapped(raw: string, lower: char -> char): string {
    seq(|raw|, i requires 0 <= i < |raw| => Allowed(lower(raw[i])))
  }

  function TrimLeft(s: string): string {
    if s != [] && s[0] == '-' then TrimLeft(s[1..]) else s
  }

  function TrimRight(s: string): string {
    if s != [] && s[|s| - 1] == '-' then TrimRight(s[..|s| - 1]) else s
  }

  /** `strings.Trim(s, "-")` */
  function Trim(s: string): string { TrimRight(TrimLeft(s)) }

  function Clean(raw: string, lower: char -> char): string {
    var clean := Trim(Mapped(raw, lower));
    if clean == "" then "dataguard" else clean
  }

  /** A name that is too long keeps what fits beside a hash of the whole. */
  function Shortened(clean: string, hash: string -> string): string {
    if |clean| <= 63 then clean else Trim(clean[..54]) + "-" + hash(clean)
  }

  function Label(prefix: string, value: string, lower: char -> char, hash: string -> string): string {
    Shortened(Clean(prefix + "-" + value, lower), hash)
  }

  method DnsLabel(prefix: string, value: string, lower: char -> char, hash: string -> string) returns (r: string)
    requires IsHash(hash)
    ensures r == Label(prefix, value, lower, hash)
    ensures ValidLabel(r)
  {
    var raw := prefix + "-" + value;
    var built := "";
    for i := 0 to |raw|
      invariant built == Mapped(raw, lower)[..i]
    {
      var c := lower(raw[i]);
      if ('a' <= c <= 'z') || ('0' <= c <= '9') || c == '-' {
        built := built + [c];
      } else {
        built := built + ['-'];
      }
    }
    assert built == Mapped(raw, lower);
    LabelIsValid(prefix, value, lower, hash);
    var clean := Trim(built);
    if clean == "" {
      clean := "dataguard";
    }
    if |clean| <= 63 {
      return clean;
    }
    r := Trim(clean[..54]) + "-" + hash(clean);
  }

  lemma {:induction false} TrimLeftIs(s: string) returns (i: nat)
    ensures i <= |s| && TrimLeft(s) == s[i..] && (forall k :: 0 <= k < i ==> s[k] == '-')
    ensures i < |s| ==> s[i] != '-'
  {
    i := 0;
    if s != [] && s[0] == '-' {
      var j := TrimLeftIs(s[1..]);
      i := j + 1;
      assert s[1..][j..] == s[i..];
      assert forall k :: 0 < k < i ==> s[k] == s[1..][k - 1];
    }
  }

  lemma {:induction false} TrimRightIs(s: string) returns (n: nat)
    ensures n <= |s| && TrimRight(s) == s[..n] && (forall k :: n <= k < |s| ==> s[k] == '-')
    ensures n > 0 ==> s[n - 1] != '-'
  {
    n := |s|;
    if s != [] && s[|s| - 1] == '-' {
      n := TrimRightIs(s[..|s| - 1]);
      assert s[..|s| - 1][..n] == s[..n];
    }
  }

  /** Trimming leaves the text between the first and the last character that is no hyphen. */
  lemma TrimIs(s: string) returns (i: nat, n: nat)
    ensures i <= n <= |s| && Trim(s) == s[i..n]
    ensures i < n ==> s[i] != '-' && s[n - 1] != '-'
    ensures forall k :: 0 <= k < i || n <= k < |s| ==> s[k] == '-'
  {
    i := TrimLeftIs(s);
    var m := TrimRightIs(s[i..]);
    n := i + m;
    assert s[i..][..m] == s[i..n];
    assert forall k :: n <= k < |s| ==> s[k] == s[i..][k - i];
  }

  /** Where nothing is left of a name, it is "dataguard". */
  lemma NothingLeft(prefix: string, value: string, lower: char -> char, hash: string -> string)
    requires forall c :: c in prefix || c in value ==> !LabelChar(lower(c)) || lower(c) == '-'
    requires lower('-') == '-'
    ensures Label(prefix, value, lower, hash) == "dataguard"
  {
    var raw := prefix + "-" + value;
    assert forall k :: 0 <= k < |raw| ==> raw[k] in prefix || raw[k] in value || raw[k] == '-';
    HyphensTrim(Mapped(raw, lower));
  }

  lemma HyphensTrim(s: string)
    requires forall k :: 0 <= k < |s| ==> s[k] == '-'
    ensures Trim(s) == ""
  {
    var i, n := TrimIs(s);
  }

  /** Names that are shortened differ if their hashes do. */
  lemma ShortenedDiffer(a: string, b: string, hash: string -> string)
    requires IsHash(hash) && |a| > 63 && |b| > 63 && hash(a) != hash(b)
    ensures Shortened(a, hash) != Shortened(b, hash)
  {
    var x, y := Shortened(a, hash), Shortened(b, hash);
    assert x[|x| - 8..] == hash(a) && y[|y| - 8..] == hash(b);
  }

  /** Every generated name is a valid DNS label, whatever prefix and value are. */
  lemma LabelIsValid(prefix: string, value: string, lower: char -> char, hash: string -> string)
    requires IsHash(hash)
    ensures ValidLabel(Label(prefix, value, lower, hash))
  {
    var mapped := Mapped(prefix + "-" + value, lower);
    var i, n := TrimIs(mapped);
    var clean := Clean(prefix + "-" + value, lower);
    assert clean != [] && clean[0] != '-' && clean[|clean| - 1] != '-';
    assert forall k :: 0 <= k < |clean| ==> LabelChar(clean[k]);
    if |clean| > 63 {
      var a, b := TrimIs(clean[..54]);
      assert clean[..54][0] == clean[0];
      assert a == 0 && b > 0;
      var kept, suffix := Trim(clean[..54]), hash(clean);
      var whole := kept + "-" + suffix;
      assert whole[0] == kept[0];
      assert forall k :: 0 <= k < |whole| ==>
          whole[k] == if k < |kept| then kept[k] else if k == |kept| then '-' else suffix[k - |kept| - 1];
    }
  }

  // ----- the four names -----

  function CheckerJobName(invariantName: string, run: RunKey, lower: char -> char, hash: string -> string): string {
    Label("dataguard-check", invariantName + "-" + Text(run), lower, hash)
  }

  function ReportConfigMapName(invariantName: string, run: RunKey, lower: char -> char,
      hash: string -> string): string {
    Label("dataguard-report", invariantName + "-" + Text(run), lower, hash)
  }

  function RepairJobName(invariantName: string, run: RunKey, lower: char -> char, hash: string -> string): string {
    Label("dataguard-repair", invariantName + "-" + Text(run), lower, hash)
  }

  function RepairConfigMapName(invariantName: string, run: RunKey, lower: char -> char,
      hash: string -> string): string {
    Label("dataguard-repair-report", invariantName + "-" + Text(run), lower, hash)
  }

  /** A prefix of label characters that begins and ends with no hyphen survives cleaning and shortening. */
  lemma PrefixSurvives(prefix: string, value: string, lower: char -> char, hash: string -> string)
    requires IsLower(lower) && ValidLabel(prefix) && |prefix| <= 54
    ensures prefix <= Label(prefix, value, lower, hash)
  {
    var raw := prefix + "-" + value;
    var mapped := Mapped(raw, lower);
    assert forall k :: 0 <= k < |prefix| ==> mapped[k] == prefix[k];
    var i, n := TrimIs(mapped);
    assert mapped[0] != '-' && mapped[|prefix| - 1] != '-';
    assert i == 0 && n >= |prefix|;
    var clean := Clean(raw, lower);
    assert clean == mapped[..n];
    if |clean| > 63 {
      var a, b := TrimIs(clean[..54]);
      assert clean[..54][0] == prefix[0] && clean[..54][|prefix| - 1] == prefix[|prefix| - 1];
      assert a == 0 && b >= |prefix|;
    }
  }

  lemma JobPrefixesAreLabels()
    ensures ValidLabel("dataguard-check") && ValidLabel("dataguard-repair")
    ensures "dataguard-check"[10] != "dataguard-repair"[10]
  {
  }

  lemma ConfigMapPrefixesAreLabels()
    ensures ValidLabel("dataguard-report") && ValidLabel("dataguard-repair-report")
    ensures "dataguard-report"[13] != "dataguard-repair-report"[13]
  {
  }

  /** A checker Job and a repair Job never have the same name. */
  lemma JobsNeverCollide(m: string, k: RunKey, n: string, l: RunKey, lower: char -> char, hash: string -> string)
    requires IsLower(lower)
    ensures CheckerJobName(m, k, lower, hash) != RepairJobName(n, l, lower, hash)
  {
    JobPrefixesAreLabels();
    DifferAfterPrefix("dataguard-check", m + "-" + Text(k), "dataguard-repair", n + "-" + Text(l), 10, lower, hash);
  }

  /** Neither have a report and a repair report. */
  lemma ConfigMapsNeverCollide(m: string, k: RunKey, n: string, l: RunKey, lower: char -> char, hash: string -> string)
    requires IsLower(lower)
    ensures ReportConfigMapName(m, k, lower, hash) != RepairConfigMapName(n, l, lower, hash)
  {
    ConfigMapPrefixesAreLabels();
    DifferAfterPrefix(
      "dataguard-report", m + "-" + Text(k), "dataguard-repair-report", n + "-" + Text(l), 13, lower, hash);
  }

  lemma DifferAfterPrefix(
    p: string, v: string, q: string, w: string, i: nat, lower: char -> char, hash: string -> string)
    requires IsLower(lower) && ValidLabel(p) && ValidLabel(q) && |p| <= 54 && |q| <= 54
    requires i < |p| && i < |q| && p[i] != q[i]
    ensures Label(p, v, lower, hash) != Label(q, w, lower, hash)
  {
    PrefixSurvives(p, v, lower, hash);
    PrefixSurvives(q, w, lower, hash);
    assert Label(p, v, lower, hash)[i] == p[i] && Label(q, w, lower, hash)[i] == q[i];
  }

  // ----- decoding -----

  lemma RunIdIsLabelText(k: RunKey)
    ensures forall i :: 0 <= i < |Text(k)| ==> LabelChar(Text(k)[i])
    ensures Text(k) != [] && Text(k)[0] == 'g' && Text(k)[|Text(k)| - 1] != '-'
  {
    StrValue(k.generation);
    if k.Slot? {
      StrValue(k.slot);
      var t := "g" + Str(k.generation) + "-t" + Str(k.slot);
      assert t[|t| - 1] == Str(k.slot)[|Str(k.slot)| - 1];
    }
  }

  /** An untruncated name of label characters is its raw text. */
  lemma CleanTextStays(prefix: string, name: string, k: RunKey, lower: char -> char)
    requires IsLower(lower) && ValidLabel(prefix)
    requires forall i :: 0 <= i < |name| ==> LabelChar(name[i])
    ensures Clean(prefix + "-" + (name + "-" + Text(k)), lower) == prefix + "-" + (name + "-" + Text(k))
  {
    RunIdIsLabelText(k);
    var raw := prefix + "-" + (name + "-" + Text(k));
    assert forall i :: 0 <= i < |raw| ==> LabelChar(raw[i]);
    assert Mapped(raw, lower) == raw;
    assert raw[0] == prefix[0] && raw[|raw| - 1] == Text(k)[|Text(k)| - 1];
    var i, n := TrimIs(raw);
    assert i == 0 && n == |raw|;
  }

  /** The run id is read back from the end of the text: its parts contain no hyphen. */
  lemma RunIdAtEnd(m: string, k: RunKey, n: string, l: RunKey)
    requires m + "-" + Text(k) == n + "-" + Text(l)
    ensures m == n && k == l
  {
    HeadIsPlain(k.generation);
    HeadIsPlain(l.generation);
    var (a, x) := Parts(m, k);
    var (b, y) := Parts(n, l);
    SplitAtLast(a, x, b, y, '-');
    assert x[0] == (if k.Slot? then 't' else 'g') && y[0] == (if l.Slot? then 't' else 'g');
    if k.Slot? {
      assert x[1..] == Str(k.slot) && y[1..] == Str(l.slot);
      StrInjective(k.slot, l.slot);
      SplitAtLast(m, Head(k.generation), n, Head(l.generation), '-');
    }
    HeadInjective(k.generation, l.generation);
  }

  /** The text before and after the last hyphen. */
  ghost function Parts(m: string, k: RunKey): (p: (string, string))
    ensures m + "-" + Text(k) == p.0 + ['-'] + p.1 && Without(p.1, '-') && p.1 != []
  {
    HeadIsPlain(k.generation);
    match k
    case OneShot(g) => (m, Head(g))
    case Slot(g, t) =>
      StrValue(t);
      SlotText(g, t);
      assert m + "-" + Text(k) == (m + ['-'] + Head(g)) + ['-'] + ("t" + Str(t));
      (m + ['-'] + Head(g), "t" + Str(t))
  }

  /** Names that were not shortened tell invariant and run apart, if invariant names are of label characters. */
  lemma NamesDecode(prefix: string, m: string, k: RunKey, n: string, l: RunKey, lower: char -> char,
      hash: string -> string)
    requires IsLower(lower) && ValidLabel(prefix)
    requires forall i :: 0 <= i < |m| ==> LabelChar(m[i])
    requires forall i :: 0 <= i < |n| ==> LabelChar(n[i])
    requires |prefix| + |m| + |Text(k)| + 2 <= 63 && |prefix| + |n| + |Text(l)| + 2 <= 63
    ensures Label(prefix, m + "-" + Text(k), lower, hash) == Label(prefix, n + "-" + Text(l), lower, hash)
            <==> m == n && k == l
  {
    CleanTextStays(prefix, m, k, lower);
    CleanTextStays(prefix, n, l, lower);
    var s, t := m + "-" + Text(k), n + "-" + Text(l);
    var raw, raw' := prefix + "-" + s, prefix + "-" + t;
    if raw == raw' {
      assert s == raw[|prefix| + 1..] && t == raw'[|prefix| + 1..];
      RunIdAtEnd(m, k, n, l);
    }
  }

  // ----- names of other characters -----

  /** Only what a name is mapped to matters to the label. */
  lemma LabelOfMappedName(prefix: string, m: string, k: RunKey, lower: char -> char, hash: string -> string)
    requires IsLower(lower)
    ensures Label(prefix, m + "-" + Text(k), lower, hash)
            == Label(prefix, Mapped(m, lower) + "-" + Text(k), lower, hash)
  {
    var raw, mapped := prefix + "-" + (m + "-" + Text(k)), prefix + "-" + (Mapped(m, lower) + "-" + Text(k));
    assert forall i :: 0 <= i < |m| ==> LabelChar(Mapped(m, lower)[i]);
    forall i | 0 <= i < |raw| ensures Mapped(raw, lower)[i] == Mapped(mapped, lower)[i] {
      var at := i - |prefix| - 1;
      if 0 <= at < |m| {
        assert raw[i] == m[at] && mapped[i] == Mapped(m, lower)[at];
      } else {
        assert raw[i] == mapped[i];
      }
    }
    assert Mapped(raw, lower) == Mapped(mapped, lower);
  }

  /**
   Whatever characters the names of Invariants have: names that are not shortened are equal if and only
   if the runs are the same and the Invariants' names have the same characters after lower-casing and
   replacing what a label does not allow by hyphens.
   */
  lemma NamesCollideIff(prefix: string, m: string, k: RunKey, n: string, l: RunKey, lower: char -> char,
      hash: string -> string)
    requires IsLower(lower) && ValidLabel(prefix)
    requires |prefix| + |m| + |Text(k)| + 2 <= 63 && |prefix| + |n| + |Text(l)| + 2 <= 63
    ensures Label(prefix, m + "-" + Text(k), lower, hash) == Label(prefix, n + "-" + Text(l), lower, hash)
            <==> Mapped(m, lower) == Mapped(n, lower) && k == l
  {
    LabelOfMappedName(prefix, m, k, lower, hash);
    LabelOfMappedName(prefix, n, l, lower, hash);
    NamesDecode(prefix, Mapped(m, lower), k, Mapped(n, lower), l, lower, hash);
  }

  /** Names that are mapped alike share all generated names, shortened or not: so do "a.b" and "a-b", for one. */
  lemma MappedAlikeCollide(prefix: string, m: string, n: string, k: RunKey, lower: char -> char, hash: string -> string)
    requires IsLower(lower) && Mapped(m, lower) == Mapped(n, lower)
    ensures Label(prefix, m + "-" + Text(k), lower, hash) == Label(prefix, n + "-" + Text(k), lower, hash)
  {
    LabelOfMappedName(prefix, m, k, lower, hash);
    LabelOfMappedName(prefix, n, k, lower, hash);
  }

  lemma DotsCollide(prefix: string, k: RunKey, lower: char -> char, hash: string -> string)
    requires IsLower(lower) && lower('.') == '.'
    ensures Label(prefix, "a.b" + "-" + Text(k), lower, hash) == Label(prefix, "a-b" + "-" + Text(k), lower, hash)
  {
    assert Mapped("a.b", lower) == "a-b" && Mapped("a-b", lower) == "a-b";
    MappedAlikeCollide(prefix, "a.b", "a-b", k, lower, hash);
  }
}
