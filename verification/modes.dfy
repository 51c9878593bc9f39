/** The two name registries: `ResamplingType.VALUES` and
    `CompositingTypes.VALUES`, each a TreeMap ordered by Java's
    `String.CASE_INSENSITIVE_ORDER` holding every enum constant under its
    name. A lookup finds the key that compares equal to the argument. */
module Modes {
  import opened Results
  import Kernels

  datatype Resampling = Nearest | Linear | Bilinear | Bicubic

  datatype Blend = Replace | AlphaOver | Add | Subtract | Multiply | Desaturate

  function ResamplingName(m: Resampling): string {
    match m
    case Nearest => "NEAREST"
    case Linear => "LINEAR"
    case Bilinear => "BILINEAR"
    case Bicubic => "BICUBIC"
  }

  function BlendName(b: Blend): string {
    match b
    case Replace => "REPLACE"
    case AlphaOver => "ALPHA"
    case Add => "ADD"
    case Subtract => "SUBTRACT"
    case Multiply => "MULTIPLY"
    case Desaturate => "DESATURATE"
  }

  /** The enum constants in declaration order, as `values()` yields them. */
  const ResamplingValues: seq<Resampling> := [Nearest, Linear, Bilinear, Bicubic]
  const BlendValues: seq<Blend> := [Replace, AlphaOver, Add, Subtract, Multiply, Desaturate]

  /** The blends computed by a custom composite context; REPLACE and ALPHA go
      to the platform's AlphaComposite instead. */
  function KernelOf(b: Blend): (r: Option<Kernels.Kernel>)
    ensures r.None? <==> b == Replace || b == AlphaOver
  {
    match b
    case Add => Some(Kernels.Additive)
    case Subtract => Some(Kernels.Subtractive)
    case Multiply => Some(Kernels.Multiplicative)
    case Desaturate => Some(Kernels.Desaturation)
    case _ => None
  }

  /** The blend whose composite context runs kernel `k`. */
  function BlendOf(k: Kernels.Kernel): (b: Blend)
    ensures KernelOf(b) == Some(k)
  {
    match k
    case Additive => Add
    case Subtractive => Subtract
    case Multiplicative => Multiply
    case Desaturation => Desaturate
  }

  /** Each custom composite belongs to exactly one blend. */
  lemma BlendOfKernelOf(b: Blend)
    requires KernelOf(b).Some?
    ensures BlendOf(KernelOf(b).value) == b
  {
  }

  // ---------------------------------------------------------------------
  // Case-insensitive comparison

  predicate IsUpper(u: char) {
    'A' <= u <= 'Z'
  }

  predicate UpperName(n: string) {
    forall i :: 0 <= i < |n| ==> IsUpper(n[i])
  }

  /** Whether `CASE_INSENSITIVE_ORDER` treats character `c` as equal to the
      upper-case ASCII letter `u`. It compares the characters, then their
      upper-case forms, then the lower-case forms of those. Apart from `u`
      and its lower-case letter, that admits the dotless i (U+0131, upper
      case 'I') and the dotted capital I (U+0130, lower case 'i') for 'I',
      the long s (U+017F, upper case 'S') for 'S' and the Kelvin sign
      (U+212A, lower case 'k') for 'K'. */
  predicate Folds(c: char, u: char)
    requires IsUpper(u)
  {
    || c == u
    || c as int == u as int + 32
    || (u == 'I' && (c == '\U{0131}' || c == '\U{0130}'))
    || (u == 'S' && c == '\U{017F}')
    || (u == 'K' && c == '\U{212A}')
  }

  /** `CASE_INSENSITIVE_ORDER.compare(s, name) == 0` for an upper-case name. */
  predicate SameIgnoringCase(s: string, name: string)
    requires UpperName(name)
  {
    |s| == |name| && forall i :: 0 <= i < |s| ==> Folds(s[i], name[i])
  }

  /** No character folds to two different letters. */
  lemma FoldsUnique(c: char, u1: char, u2: char)
    requires IsUpper(u1) && IsUpper(u2) && Folds(c, u1) && Folds(c, u2)
    ensures u1 == u2
  {
  }

  /** So no string compares equal to two different upper-case names. */
  lemma SameNameUnique(s: string, n1: string, n2: string)
    requires UpperName(n1) && UpperName(n2)
    requires SameIgnoringCase(s, n1) && SameIgnoringCase(s, n2)
    ensures n1 == n2
  {
    forall i | 0 <= i < |s|
      ensures n1[i] == n2[i]
    {
      FoldsUnique(s[i], n1[i], n2[i]);
    }
  }

  /** The ASCII lower-case form of an upper-case name: all small letters,
      and equal to the name ignoring case. */
  function Lower(n: string): (r: string)
    requires UpperName(n)
    ensures |r| == |n|
    ensures forall i :: 0 <= i < |r| ==> 'a' <= r[i] <= 'z'
    ensures SameIgnoringCase(r, n)
  {
    seq(|n|, i requires 0 <= i < |n| => (n[i] as int + 32) as char)
  }

  /** Java's `compareToCI` test on one pair of characters, given the
      platform's simple case mappings `up` (`Character.toUpperCase`) and
      `lo` (`Character.toLowerCase`): equal as they are, equal once both are
      upper-cased, or equal once those are lower-cased. */
  predicate JavaCharsMatch(c1: char, c2: char, up: char -> char, lo: char -> char) {
    c1 == c2 || up(c1) == up(c2) || lo(up(c1)) == lo(up(c2))
  }

  predicate IsSmall(c: char) {
    'a' <= c <= 'z'
  }

  /** The facts of the Unicode simple case mappings that a comparison with
      an ASCII capital depends on. Upper-casing: a capital and its small
      letter map to the capital; otherwise only U+0131 reaches 'I' and only
      U+017F reaches 'S'; no character reaches a small ASCII letter, and
      only U+0130 and U+212A reach themselves. Lower-casing: a capital and
      its small letter map to the small letter; otherwise only U+0130 reaches
      'i' and only U+212A reaches 'k'. */
  predicate CaseTables(up: char -> char, lo: char -> char) {
    && (forall c :: IsUpper(up(c)) ==>
          c == up(c) || c as int == up(c) as int + 32
          || (c == '\U{0131}' && up(c) == 'I') || (c == '\U{017F}' && up(c) == 'S'))
    && (forall c :: IsUpper(c) ==> up(c) == c && lo(c) as int == c as int + 32)
    && (forall c :: IsSmall(c) ==> up(c) as int == c as int - 32 && lo(c) == c)
    && (forall c :: !IsSmall(up(c)))
    && (forall c :: up(c) == '\U{0130}' ==> c == '\U{0130}')
    && (forall c :: up(c) == '\U{212A}' ==> c == '\U{212A}')
    && (forall c :: IsSmall(lo(c)) ==>
          c == lo(c) || c as int + 32 == lo(c) as int
          || (c == '\U{0130}' && lo(c) == 'i') || (c == '\U{212A}' && lo(c) == 'k'))
    && up('\U{0131}') == 'I' && up('\U{017F}') == 'S'
    && up('\U{0130}') == '\U{0130}' && lo('\U{0130}') == 'i'
    && up('\U{212A}') == '\U{212A}' && lo('\U{212A}') == 'k'
  }

  /** The facts can all hold at once: mappings that change only ASCII
      letters and the four characters above satisfy them. */
  lemma CaseTablesConsistent()
    ensures CaseTables(AsciiUp, AsciiLo)
  {
  }

  function AsciiUp(c: char): char {
    if IsSmall(c) then (c as int - 32) as char
    else if c == '\U{0131}' then 'I'
    else if c == '\U{017F}' then 'S'
    else c
  }

  function AsciiLo(c: char): char {
    if IsUpper(c) then (c as int + 32) as char
    else if c == '\U{0130}' then 'i'
    else if c == '\U{212A}' then 'k'
    else c
  }

  /** Under those case mappings, `Folds` is exactly Java's character test
      against an ASCII capital. */
  lemma FoldsIsJavaComparison(c: char, u: char, up: char -> char, lo: char -> char)
    requires CaseTables(up, lo) && IsUpper(u)
    ensures JavaCharsMatch(c, u, up, lo) <==> Folds(c, u)
  {
  }

  /** And `SameIgnoringCase` is `CASE_INSENSITIVE_ORDER.compare(s, name) == 0`:
      equal lengths and every position matching. */
  lemma SameIgnoringCaseIsJavaComparison(s: string, name: string, up: char -> char, lo: char -> char)
    requires CaseTables(up, lo) && UpperName(name)
    ensures SameIgnoringCase(s, name) <==>
      |s| == |name| && forall i :: 0 <= i < |s| ==> JavaCharsMatch(s[i], name[i], up, lo)
  {
    if |s| == |name| {
      forall i | 0 <= i < |s|
        ensures JavaCharsMatch(s[i], name[i], up, lo) <==> Folds(s[i], name[i])
      {
        FoldsIsJavaComparison(s[i], name[i], up, lo);
      }
    }
  }

  // ---------------------------------------------------------------------
  // Lookup

  /** The first of `values` whose name compares equal to `s`. */
  function Find<T>(s: string, values: seq<T>, name: T -> string): (r: Option<T>)
    requires forall i :: 0 <= i < |values| ==> UpperName(name(values[i]))
    ensures r.Some? ==> r.value in values && SameIgnoringCase(s, name(r.value))
    ensures r.None? ==> forall i :: 0 <= i < |values| ==> !SameIgnoringCase(s, name(values[i]))
  {
    if |values| == 0 then None
    else if SameIgnoringCase(s, name(values[0])) then Some(values[0])
    else Find(s, values[1..], name)
  }

  /** `ResamplingType.VALUES.get(s)`. */
  function LookupResampling(s: string): (r: Option<Resampling>)
    ensures forall m :: r == Some(m) <==> SameIgnoringCase(s, ResamplingName(m))
  {
    var r := Find(s, ResamplingValues, ResamplingName);
    forall m ensures r == Some(m) <==> SameIgnoringCase(s, ResamplingName(m)) {
      assert m == ResamplingValues[ResamplingIndex(m)];
      if r.Some? && SameIgnoringCase(s, ResamplingName(m)) {
        SameNameUnique(s, ResamplingName(m), ResamplingName(r.value));
      }
    }
    r
  }

  function ResamplingIndex(m: Resampling): (i: nat)
    ensures i < |ResamplingValues| && ResamplingValues[i] == m
  {
    match m
    case Nearest => 0
    case Linear => 1
    case Bilinear => 2
    case Bicubic => 3
  }

  /** `CompositingTypes.VALUES.get(s)`. */
  function LookupBlend(s: string): (r: Option<Blend>)
    ensures forall b :: r == Some(b) <==> SameIgnoringCase(s, BlendName(b))
  {
    var r := Find(s, BlendValues, BlendName);
    forall b ensures r == Some(b) <==> SameIgnoringCase(s, BlendName(b)) {
      assert b == BlendValues[BlendIndex(b)];
      if r.Some? && SameIgnoringCase(s, BlendName(b)) {
        SameNameUnique(s, BlendName(b), BlendName(r.value));
      }
    }
    r
  }

  function BlendIndex(b: Blend): (i: nat)
    ensures i < |BlendValues| && BlendValues[i] == b
  {
    match b
    case Replace => 0
    case AlphaOver => 1
    case Add => 2
    case Subtract => 3
    case Multiply => 4
    case Desaturate => 5
  }

  /** The resampling argument of IMAGERESIZE, IMAGESCALE and IMAGEPAINT:
      null means NEAREST, otherwise a registry lookup (None is BadMode). */
  function ResolveResampling(arg: Option<string>): (r: Option<Resampling>)
    ensures arg.None? ==> r == Some(Nearest)
    ensures arg.Some? ==> forall m :: r == Some(m) <==> SameIgnoringCase(arg.value, ResamplingName(m))
  {
    if arg.None? then Some(Nearest) else LookupResampling(arg.value)
  }

  /** The blend argument of IMAGEPAINT and IMAGEDRAW: null means ALPHA,
      otherwise a registry lookup (None is BadBlend). */
  function ResolveBlend(arg: Option<string>): (r: Option<Blend>)
    ensures arg.None? ==> r == Some(AlphaOver)
    ensures arg.Some? ==> forall b :: r == Some(b) <==> SameIgnoringCase(arg.value, BlendName(b))
  {
    if arg.None? then Some(AlphaOver) else LookupBlend(arg.value)
  }

  /** Each name is found under its own spelling and in lower case. */
  lemma NamesFoundInAnyAsciiCase(m: Resampling, b: Blend)
    ensures LookupResampling(ResamplingName(m)) == Some(m)
    ensures LookupResampling(Lower(ResamplingName(m))) == Some(m)
    ensures LookupBlend(BlendName(b)) == Some(b)
    ensures LookupBlend(Lower(BlendName(b))) == Some(b)
  {
  }

  /** A name that is no enum constant's name in any case is not found. */
  lemma UnknownNameNotFound(s: string)
    requires forall m :: !SameIgnoringCase(s, ResamplingName(m))
    requires forall b :: !SameIgnoringCase(s, BlendName(b))
    ensures LookupResampling(s) == None && LookupBlend(s) == None
  {
  }
}
