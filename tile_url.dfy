/**
 * What `TilesLayer.urlFor(x:y:z:)` computes: the first `{switch:h1,...,hn}`
 * directive of the template is replaced by host number `(x + y) % n`, then
 * every `{x}`, `{y}` and `{z}` by the decimal values, and the text is handed
 * to `URL(string:)`.
 *
 * Swift's `Int` is 64 bits wide and `x + y` traps on overflow; `%` truncates
 * toward zero, so a negative `x + y` can give a negative host index, which
 * traps when the host list is indexed; `URL(string:)!` traps when the text
 * is not a URL. Each trap is an `Err` here.
 */
module TileUrl {
  import opened Wrappers
  import opened Strings
  import opened Integers

  /** The traps of `urlFor`. */
  datatype UrlError =
    | AdditionOverflow      // `x + y` does not fit in an `Int`
    | HostIndexOutOfRange   // `(x + y) % n` is negative
    | MalformedUrl          // `URL(string:)` returned nil

  const SwitchOpen: string := "{switch:"
  const SwitchClose: string := "}"
  const HostSeparator: char := ','
  const XPlaceholder: string := "{x}"
  const YPlaceholder: string := "{y}"
  const ZPlaceholder: string := "{z}"

  /** What follows the host in the built-in template: ".tile.openstreetmap.org/{z}/{x}/{y}.png". */
  const DefaultPath: string :=
    ".tile.openstreetmap.org/" + ZPlaceholder + "/" + XPlaceholder + "/" + YPlaceholder + ".png"

  /**
   * The template `TilesLayer` is built with,
   * "https://{switch:a,b,c}.tile.openstreetmap.org/{z}/{x}/{y}.png", written
   * as the concatenation of its pieces.
   */
  const DefaultTemplate: string := "https://" + SwitchOpen + "a,b,c" + SwitchClose + DefaultPath

  /** The host index `urlFor` computes for `n` hosts, or the trap it hits. */
  function ShardIndex(x: Int, y: Int, n: nat): (r: Result<nat, UrlError>)
    requires n > 0
    ensures r.Ok? ==> r.value < n && (x + y - r.value) % n == 0
    ensures r == Err(AdditionOverflow) <==> !IsInt(x + y)
    ensures r == Err(HostIndexOutOfRange) ==> x + y < 0
    ensures IsInt(x + y) && x + y >= 0 ==> r == Ok((x + y) % n)
  {
    var sum := x + y;
    if !IsInt(sum) then Err(AdditionOverflow)
    else
      var i := TruncRem(sum, n);
      TruncRemCongruent(sum, n);
      if i < 0 then Err(HostIndexOutOfRange) else Ok(i)
  }

  /**
   * A negative `x + y` traps exactly when it is not a multiple of the number
   * of hosts; a multiple picks the first host.
   */
  lemma NegativeSumShard(x: Int, y: Int, n: nat)
    requires n > 0 && IsInt(x + y) && x + y < 0
    ensures ShardIndex(x, y, n) == Err(HostIndexOutOfRange) <==> (x + y) % n != 0
    ensures (x + y) % n == 0 ==> ShardIndex(x, y, n) == Ok(0)
  {
    NegatedMultiple(x + y, n);
  }

  /** A negative sum that is not a multiple of the host count traps, e.g. `x + y == -1`. */
  lemma NegativeSumTraps(x: Int, y: Int, n: nat)
    requires n > 1 && x + y == -1
    ensures ShardIndex(x, y, n) == Err(HostIndexOutOfRange)
  {
    assert TruncRem(-1, n) == -(1 % n) == -1;
  }

  /** Neighbouring tiles along either axis use consecutive hosts, cyclically. */
  lemma ShardCycles(x: Int, y: Int, n: nat)
    requires n > 0 && x >= 0 && y >= 0 && x + y < IntMax
    ensures ShardIndex(x, y, n).Ok?
    ensures x < IntMax ==> ShardIndex(x + 1, y, n) == Ok((ShardIndex(x, y, n).value + 1) % n)
    ensures y < IntMax ==> ShardIndex(x, y + 1, n) == Ok((ShardIndex(x, y, n).value + 1) % n)
  {
    var s := x + y;
    assert (s + 1) % n == (s % n + 1) % n by {
      if s % n + 1 < n {
        DivModUnique(s + 1, n, s / n, s % n + 1);
        DivModUnique(s % n + 1, n, 0, s % n + 1);
      } else {
        DivModUnique(s + 1, n, s / n + 1, 0);
        DivModUnique(n, n, 1, 0);
      }
    }
  }

  /**
   * The switch step: the span from the first `{switch:` through the first
   * `}` after it becomes the chosen host; without both markers the text is
   * left as it is.
   */
  function SwitchStep(t: string, x: Int, y: Int): Result<string, UrlError> {
    match Find(t, SwitchOpen, 0)
    case None => Ok(t)
    case Some(b) =>
      match Find(t, SwitchClose, b + |SwitchOpen|)
      case None => Ok(t)
      case Some(e) =>
        var hosts := Split(t[b + |SwitchOpen|..e], HostSeparator);
        match ShardIndex(x, y, |hosts|)
        case Err(err) => Err(err)
        case Ok(i) => Ok(t[..b] + hosts[i] + t[e + |SwitchClose|..])
  }

  /** The three placeholder replacements, in the order `urlFor` applies them. */
  function Substitute(u: string, x: int, y: int, z: int): string {
    var ux := ReplaceAll(u, XPlaceholder, Decimal(x));
    var uy := ReplaceAll(ux, YPlaceholder, Decimal(y));
    ReplaceAll(uy, ZPlaceholder, Decimal(z))
  }

  /**
   * The URL text `urlFor(x:y:z:)` returns for `template`; `isUrl` stands for
   * `URL(string:)` succeeding.
   */
  function UrlText(template: string, x: Int, y: Int, z: int, isUrl: string -> bool): Result<string, UrlError> {
    match SwitchStep(template, x, y)
    case Err(e) => Err(e)
    case Ok(u) =>
      var s := Substitute(u, x, y, z);
      if isUrl(s) then Ok(s) else Err(MalformedUrl)
  }

  // ---------------------------------------------------------------------
  // The switch step
  // ---------------------------------------------------------------------

  /**
   * For a template `p + "{switch:" + body + "}" + q` whose first directive
   * is the one shown and whose body holds no `}`, the directive is replaced
   * by host `(x + y) % n` of the comma-separated body, and `p` and `q` are
   * kept.
   */
  lemma SwitchSplice(p: string, body: string, q: string, x: Int, y: Int)
    requires NoneBetween(p + SwitchOpen + body + SwitchClose + q, SwitchOpen, 0, |p|)
    requires '}' !in body
    ensures var hosts := Split(body, HostSeparator);
            SwitchStep(p + SwitchOpen + body + SwitchClose + q, x, y) ==
              match ShardIndex(x, y, |hosts|)
              case Err(err) => Err(err)
              case Ok(i) => Ok(p + hosts[i] + q)
  {
    var t := p + SwitchOpen + body + SwitchClose + q;
    var b := |p|;
    var e := |p| + |SwitchOpen| + |body|;
    assert t[b..b + |SwitchOpen|] == SwitchOpen;
    FindFirst(t, SwitchOpen, 0, b);
    forall i | b + |SwitchOpen| <= i < e ensures !OccursAt(t, SwitchClose, i) {
      assert t[i] == body[i - b - |SwitchOpen|];
      assert t[i..i + 1] == [t[i]];
    }
    assert t[e..e + 1] == SwitchClose;
    FindFirst(t, SwitchClose, b + |SwitchOpen|, e);
    assert t[b + |SwitchOpen|..e] == body;
    assert t[..b] == p;
    assert t[e + |SwitchClose|..] == q;
  }

  /** Without any `{switch:` the template passes the switch step unchanged. */
  lemma SwitchWithoutOpen(t: string, x: Int, y: Int)
    requires !Contains(t, SwitchOpen)
    ensures SwitchStep(t, x, y) == Ok(t)
  {
  }

  /** A first `{switch:` with no `}` after it leaves the template unchanged. */
  lemma SwitchWithoutClose(t: string, b: nat, x: Int, y: Int)
    requires OccursAt(t, SwitchOpen, b) && NoneBetween(t, SwitchOpen, 0, b)
    requires NoneBetween(t, SwitchClose, b + |SwitchOpen|, |t| + 1)
    ensures SwitchStep(t, x, y) == Ok(t)
  {
    FindFirst(t, SwitchOpen, 0, b);
  }

  /** An empty directive `{switch:}` has the single host "" and simply disappears. */
  lemma EmptySwitch(p: string, body: string, q: string, x: Int, y: Int)
    requires body == [] && NoneBetween(p + SwitchOpen + body + SwitchClose + q, SwitchOpen, 0, |p|)
    requires IsInt(x + y)
    ensures SwitchStep(p + SwitchOpen + body + SwitchClose + q, x, y) == Ok(p + q)
  {
    SwitchSplice(p, body, q, x, y);
    assert Split(body, HostSeparator) == [body];
    if x + y < 0 { NegativeSumShard(x, y, 1); }
    assert ShardIndex(x, y, 1) == Ok(0);
    assert p + body + q == p + q;
  }

  // ---------------------------------------------------------------------
  // The placeholder replacements
  // ---------------------------------------------------------------------

  /** A decimal rendering shares no character with a placeholder. */
  lemma DecimalAvoidsPlaceholder(n: int, ph: string)
    requires ph == XPlaceholder || ph == YPlaceholder || ph == ZPlaceholder
    ensures NoCommonChar(ph, Decimal(n))
  {
    forall c | c in ph ensures c !in Decimal(n) {
      assert c == '{' || c == '}' || c == 'x' || c == 'y' || c == 'z';
    }
  }

  /**
   * After the three replacements no `{x}`, `{y}` or `{z}` is left, whatever
   * the text: the inserted digits never form a new placeholder.
   */
  lemma SubstituteLeavesNoPlaceholder(u: string, x: int, y: int, z: int)
    ensures var s := Substitute(u, x, y, z);
            !Contains(s, XPlaceholder) && !Contains(s, YPlaceholder) && !Contains(s, ZPlaceholder)
  {
    var ux := ReplaceAll(u, XPlaceholder, Decimal(x));
    var uy := ReplaceAll(ux, YPlaceholder, Decimal(y));
    DecimalAvoidsPlaceholder(x, XPlaceholder);
    DecimalAvoidsPlaceholder(y, XPlaceholder);
    DecimalAvoidsPlaceholder(y, YPlaceholder);
    DecimalAvoidsPlaceholder(z, XPlaceholder);
    DecimalAvoidsPlaceholder(z, YPlaceholder);
    DecimalAvoidsPlaceholder(z, ZPlaceholder);
    ReplaceAllLeavesNone(u, XPlaceholder, Decimal(x));
    ReplaceAllCreatesNone(ux, YPlaceholder, Decimal(y), XPlaceholder);
    ReplaceAllLeavesNone(ux, YPlaceholder, Decimal(y));
    ReplaceAllCreatesNone(uy, ZPlaceholder, Decimal(z), XPlaceholder);
    ReplaceAllCreatesNone(uy, ZPlaceholder, Decimal(z), YPlaceholder);
    ReplaceAllLeavesNone(uy, ZPlaceholder, Decimal(z));
  }

  /** A URL `urlFor` returns never keeps a placeholder. */
  lemma UrlHasNoPlaceholder(template: string, x: Int, y: Int, z: int, isUrl: string -> bool)
    ensures var r := UrlText(template, x, y, z, isUrl);
            r.Ok? ==> !Contains(r.value, XPlaceholder) && !Contains(r.value, YPlaceholder)
                      && !Contains(r.value, ZPlaceholder)
  {
    if SwitchStep(template, x, y).Ok? {
      SubstituteLeavesNoPlaceholder(SwitchStep(template, x, y).value, x, y, z);
    }
  }

  /** The placeholder `{c}`. */
  function Slot(c: char): string { ['{', c, '}'] }

  /**
   * Every placeholder `{c}` with `c` in `reps` replaced by `reps[c]` in one
   * left-to-right scan; the rest of `u` is kept as it is.
   */
  function Fill(u: string, reps: map<char, string>): string
    decreases |u|
  {
    if |u| >= 3 && u[0] == '{' && u[1] in reps && u[2] == '}' then reps[u[1]] + Fill(u[3..], reps)
    else if u == [] then []
    else [u[0]] + Fill(u[1..], reps)
  }

  /** A replacement value that cannot take part in forming the placeholder `{c}`. */
  predicate Inert(r: string, c: char) {
    |r| > 0 && '{' !in r && '}' !in r && c !in r
  }

  /** Filling no placeholder changes nothing. */
  lemma {:induction false} FillNothing(u: string)
    ensures Fill(u, map[]) == u
    decreases |u|
  {
    if u != [] {
      FillNothing(u[1..]);
    }
  }

  /**
   * If the filled text starts with a character that no replacement holds,
   * that character was the first one of `u` and was copied.
   */
  lemma FillFirst(u: string, reps: map<char, string>, ch: char)
    requires forall k :: k in reps ==> |reps[k]| > 0 && ch !in reps[k]
    requires |Fill(u, reps)| > 0 && Fill(u, reps)[0] == ch
    ensures |u| > 0 && u[0] == ch && Fill(u, reps) == [u[0]] + Fill(u[1..], reps)
  {
  }

  /** Text in which `{c}` cannot start at position 0 gets its first character copied by the replacement. */
  lemma ReplaceAllHead(s: string, c: char, r: string)
    requires |s| > 0 && !(|s| >= 3 && s[0] == '{' && s[1] == c && s[2] == '}')
    ensures ReplaceAll(s, Slot(c), r) == [s[0]] + ReplaceAll(s[1..], Slot(c), r)
  {
    if |s| < 3 {
      assert ReplaceAll(s[1..], Slot(c), r) == s[1..];
      assert s == [s[0]] + s[1..];
    }
  }

  /**
   * Replacing `{c}` after the placeholders of `reps` were filled is filling
   * them together with `{c}`: inert replacements never form a new
   * placeholder, and the results of the two orders agree.
   */
  lemma {:induction false} FillStep(u: string, reps: map<char, string>, c: char, r: string)
    requires c != '{' && c !in reps
    requires forall k :: k in reps ==> Inert(reps[k], c)
    ensures ReplaceAll(Fill(u, reps), Slot(c), r) == Fill(u, reps[c := r])
    decreases |u|
  {
    if |u| >= 3 && u[0] == '{' && u[1] == c && u[2] == '}' {
      FillStep(u[3..], reps, c, r);
      FillStepAtSlot(u, reps, c, r);
    } else if |u| >= 3 && u[0] == '{' && u[1] in reps && u[2] == '}' {
      FillStep(u[3..], reps, c, r);
      FillStepAtKept(u, reps, c, r);
    } else if u != [] {
      FillStep(u[1..], reps, c, r);
      FillStepAtChar(u, reps, c, r);
    }
  }

  /** A character that does not start a filled placeholder is copied. */
  lemma FillCopies(v: string, reps: map<char, string>)
    requires v != [] && !(|v| >= 3 && v[0] == '{' && v[1] in reps && v[2] == '}')
    ensures Fill(v, reps) == [v[0]] + Fill(v[1..], reps)
  {
  }

  /** An occurrence at the front is replaced and the rest is scanned on. */
  lemma ReplaceAllFront(p: string, w: string, r: string)
    requires |p| > 0
    ensures ReplaceAll(p + w, p, r) == r + ReplaceAll(w, p, r)
  {
    assert (p + w)[..|p|] == p && (p + w)[|p|..] == w;
  }

  /** `FillStep` when `u` starts with `{c}` itself. */
  lemma FillStepAtSlot(u: string, reps: map<char, string>, c: char, r: string)
    requires c != '{' && c !in reps
    requires |u| >= 3 && u[0] == '{' && u[1] == c && u[2] == '}'
    requires ReplaceAll(Fill(u[3..], reps), Slot(c), r) == Fill(u[3..], reps[c := r])
    ensures ReplaceAll(Fill(u, reps), Slot(c), r) == Fill(u, reps[c := r])
  {
    var w := Fill(u[3..], reps);
    FillCopies(u, reps);
    FillCopies(u[1..], reps);
    FillCopies(u[2..], reps);
    assert u[1..][1..] == u[2..] && u[2..][1..] == u[3..];
    assert Fill(u, reps) == Slot(c) + w;
    ReplaceAllFront(Slot(c), w, r);
  }

  /** `FillStep` when `u` starts with a placeholder `reps` already fills. */
  lemma FillStepAtKept(u: string, reps: map<char, string>, c: char, r: string)
    requires c !in reps && forall k :: k in reps ==> Inert(reps[k], c)
    requires |u| >= 3 && u[0] == '{' && u[1] in reps && u[2] == '}'
    requires ReplaceAll(Fill(u[3..], reps), Slot(c), r) == Fill(u[3..], reps[c := r])
    ensures ReplaceAll(Fill(u, reps), Slot(c), r) == Fill(u, reps[c := r])
  {
    var p, h, w := Slot(c), reps[u[1]], Fill(u[3..], reps);
    assert '{' !in h;
    assert NoneBetween(h + w, p, 0, |h|) by {
      forall i | 0 <= i < |h| ensures !OccursAt(h + w, p, i) {
        assert (h + w)[i] == h[i] && h[i] in h;
        if i + 3 <= |h + w| { assert (h + w)[i..i + 3][0] == h[i]; }
      }
    }
    ReplaceAllSkips(h, w, p, r);
    assert reps[c := r][u[1]] == h;
  }

  /** `FillStep` when `u` starts with a character that is copied. */
  lemma FillStepAtChar(u: string, reps: map<char, string>, c: char, r: string)
    requires c != '{' && c !in reps && forall k :: k in reps ==> Inert(reps[k], c)
    requires u != [] && !(|u| >= 3 && u[0] == '{' && (u[1] == c || u[1] in reps) && u[2] == '}')
    requires ReplaceAll(Fill(u[1..], reps), Slot(c), r) == Fill(u[1..], reps[c := r])
    ensures ReplaceAll(Fill(u, reps), Slot(c), r) == Fill(u, reps[c := r])
  {
    var w := Fill(u[1..], reps);
    assert Fill(u, reps) == [u[0]] + w;
    if u[0] == '{' && |w| >= 2 && w[0] == c && w[1] == '}' {
      FillFirst(u[1..], reps, c);
      assert u[1..][1..] == u[2..];
      assert Fill(u[2..], reps)[0] == '}';
      FillFirst(u[2..], reps, '}');
      assert false;
    }
    var s := [u[0]] + w;
    ReplaceAllHead(s, c, r);
    assert s[1..] == w;
  }

  /** The three replacements of `urlFor` fill all three placeholders in one scan. */
  lemma SubstituteFills(u: string, x: int, y: int, z: int)
    ensures Substitute(u, x, y, z) == Fill(u, map['x' := Decimal(x), 'y' := Decimal(y), 'z' := Decimal(z)])
  {
    var dx, dy, dz := Decimal(x), Decimal(y), Decimal(z);
    assert XPlaceholder == Slot('x') && YPlaceholder == Slot('y') && ZPlaceholder == Slot('z');
    DecimalInert(y, 'x'); DecimalInert(z, 'x'); DecimalInert(z, 'y');
    FillNothing(u);
    FillStep(u, map[], 'x', dx);
    FillStep(u, map['x' := dx], 'y', dy);
    FillStep(u, map['x' := dx, 'y' := dy], 'z', dz);
  }

  /** The letter of one of the three placeholders. */
  predicate IsSlotLetter(c: char) { c == 'x' || c == 'y' || c == 'z' }

  /** `String(n)` for the number that goes into `{c}`. */
  function DigitsFor(c: char, x: int, y: int, z: int): string {
    if c == 'x' then Decimal(x) else if c == 'y' then Decimal(y) else Decimal(z)
  }

  /** Decimal renderings hold no brace and no placeholder letter. */
  lemma DecimalInert(n: int, c: char)
    requires IsSlotLetter(c)
    ensures Inert(Decimal(n), c)
  {
    var d := Decimal(n);
    assert forall ch :: ch in d ==> IsDigit(ch) || ch == '-';
  }

  /** Filling the three letters in any order gives the same replacements. */
  lemma SlotMapsAgree(a: char, b: char, c: char, x: int, y: int, z: int)
    requires IsSlotLetter(a) && IsSlotLetter(b) && IsSlotLetter(c) && a != b && b != c && a != c
    ensures map[a := DigitsFor(a, x, y, z), b := DigitsFor(b, x, y, z), c := DigitsFor(c, x, y, z)]
            == map['x' := Decimal(x), 'y' := Decimal(y), 'z' := Decimal(z)]
  {
  }

  /**
   * The order of the three replacements does not matter: replacing the
   * placeholders of the letters `a`, `b`, `c` (x, y and z in any order)
   * one after the other gives what `urlFor` computes.
   */
  lemma SubstituteAnyOrder(u: string, a: char, b: char, c: char, x: int, y: int, z: int)
    requires IsSlotLetter(a) && IsSlotLetter(b) && IsSlotLetter(c) && a != b && b != c && a != c
    ensures ReplaceAll(ReplaceAll(ReplaceAll(u, Slot(a), DigitsFor(a, x, y, z)), Slot(b), DigitsFor(b, x, y, z)),
                       Slot(c), DigitsFor(c, x, y, z))
            == Substitute(u, x, y, z)
  {
    var da, db, dc := DigitsFor(a, x, y, z), DigitsFor(b, x, y, z), DigitsFor(c, x, y, z);
    DecimalInert(x, b); DecimalInert(y, b); DecimalInert(z, b);
    DecimalInert(x, c); DecimalInert(y, c); DecimalInert(z, c);
    assert Inert(da, b) && Inert(da, c) && Inert(db, c);
    FillNothing(u);
    FillStep(u, map[], a, da);
    FillStep(u, map[a := da], b, db);
    FillStep(u, map[a := da, b := db], c, dc);
    SlotMapsAgree(a, b, c, x, y, z);
    SubstituteFills(u, x, y, z);
  }

  /**
   * The placeholders cannot overlap themselves, so each replacement puts the
   * decimal exactly where every former occurrence stood.
   */
  lemma PlaceholderReplaced(parts: seq<string>, ph: string, n: int)
    requires ph == XPlaceholder || ph == YPlaceholder || ph == ZPlaceholder
    requires |parts| > 0 && forall p :: p in parts ==> !Contains(p, ph)
    ensures ReplaceAll(Join(parts, ph), ph, Decimal(n)) == Join(parts, Decimal(n))
  {
    assert Borderless(ph) by {
      forall k | 0 < k < |ph| ensures ph[..k] != ph[|ph| - k..] {
        assert ph[0] == '{' && ph[|ph| - 1] == '}';
        if k == 1 { assert ph[..k][0] != ph[|ph| - k..][0]; }
        else { assert ph[..k][0] != ph[|ph| - k..][0]; }
      }
    }
    ReplaceAllJoin(parts, ph, Decimal(n));
  }

  // ---------------------------------------------------------------------
  // The built-in template
  // ---------------------------------------------------------------------

  /** A string lacking one of the characters of `pat` does not contain `pat`. */
  lemma MissingCharExcludes(s: string, pat: string, c: char)
    requires c in pat && c !in s
    ensures !Contains(s, pat)
  {
    var j :| 0 <= j < |pat| && pat[j] == c;
    forall i | 0 <= i <= |s| - |pat| ensures !OccursAt(s, pat, i) {
      assert s[i..i + |pat|][j] == s[i + j];
    }
  }

  /** One placeholder surrounded by text that cannot contain it is replaced in place. */
  lemma ReplaceOnce(a: string, b: string, ph: string, c: char, n: int)
    requires ph == XPlaceholder || ph == YPlaceholder || ph == ZPlaceholder
    requires c == ph[1] && c !in a && c !in b
    ensures ReplaceAll(a + ph + b, ph, Decimal(n)) == a + Decimal(n) + b
  {
    MissingCharExcludes(a, ph, c);
    MissingCharExcludes(b, ph, c);
    PlaceholderReplaced([a, b], ph, n);
  }

  /**
   * A directive listing hosts that hold neither `,` nor `}`, after text with
   * no `{`, is replaced by host `(x + y) % n`.
   */
  lemma SwitchChoosesHost(p: string, hosts: seq<string>, q: string, x: Int, y: Int)
    requires '{' !in p && |hosts| > 0
    requires forall h :: h in hosts ==> HostSeparator !in h && '}' !in h
    requires x >= 0 && y >= 0 && IsInt(x + y)
    ensures SwitchStep(p + SwitchOpen + Join(hosts, [HostSeparator]) + SwitchClose + q, x, y)
            == Ok(p + hosts[(x + y) % |hosts|] + q)
  {
    var body := Join(hosts, [HostSeparator]);
    OpenNotBefore(p, SwitchOpen + body + SwitchClose + q);
    assert p + (SwitchOpen + body + SwitchClose + q) == p + SwitchOpen + body + SwitchClose + q;
    JoinAvoids(hosts, HostSeparator, '}');
    SplitJoin(hosts, HostSeparator);
    SwitchSplice(p, body, q, x, y);
  }

  /** No directive starts inside text that holds no `{`. */
  lemma OpenNotBefore(p: string, r: string)
    requires '{' !in p
    ensures NoneBetween(p + r, SwitchOpen, 0, |p|)
  {
    forall i | 0 <= i < |p| ensures !OccursAt(p + r, SwitchOpen, i) {
      assert (p + r)[i] == p[i] && p[i] in p;
      if i + |SwitchOpen| <= |p + r| {
        assert (p + r)[i..i + |SwitchOpen|][0] == p[i];
      }
    }
  }

  /** A character found in no part nor in the separator is not in the join. */
  lemma {:induction false} JoinAvoids(parts: seq<string>, sep: char, c: char)
    requires |parts| > 0 && c != sep && forall h :: h in parts ==> c !in h
    ensures c !in Join(parts, [sep])
  {
    assert parts[0] in parts;
    if |parts| > 1 {
      forall h | h in parts[1..] ensures c !in h { assert h in parts; }
      JoinAvoids(parts[1..], sep, c);
    }
  }

  lemma DefaultHosts()
    ensures Join(["a", "b", "c"], [HostSeparator]) == "a,b,c"
  {
    var hosts, sep := ["a", "b", "c"], [HostSeparator];
    assert hosts[1..] == ["b", "c"] && hosts[1..][1..] == ["c"];
    assert Join(["c"], sep) == "c";
    assert Join(["b", "c"], sep) == "b" + sep + "c";
  }

  /** With the built-in template the host letter cycles a, b, c as `x + y` grows. */
  lemma DefaultTemplateHost(x: Int, y: Int)
    requires x >= 0 && y >= 0 && IsInt(x + y)
    ensures SwitchStep(DefaultTemplate, x, y) == Ok("https://" + ["abc"[(x + y) % 3]] + DefaultPath)
  {
    var hosts := ["a", "b", "c"];
    DefaultHosts();
    SwitchChoosesHost("https://", hosts, DefaultPath, x, y);
    var k := (x + y) % 3;
    assert hosts[k] == ["abc"[k]];
  }

  /** None of the placeholder letters x, y, z occurs in `s`. */
  predicate NoSlotLetter(s: string) {
    'x' !in s && 'y' !in s && 'z' !in s
  }

  /**
   * Text in the shape `a{z}b{x}c{y}d`, where no piece holds the letters x, y
   * or z, gets the three decimals in the three slots.
   */
  lemma FillSlots(a: string, b: string, c: string, d: string, x: int, y: int, z: int)
    requires NoSlotLetter(a) && NoSlotLetter(b) && NoSlotLetter(c) && NoSlotLetter(d)
    ensures Substitute(a + ZPlaceholder + b + XPlaceholder + c + YPlaceholder + d, x, y, z)
            == a + Decimal(z) + b + Decimal(x) + c + Decimal(y) + d
  {
    var dx, dy, dz := Decimal(x), Decimal(y), Decimal(z);
    assert NoSlotLetter(dx) && NoSlotLetter(dy);
    NotInSlots(a, b, 'x');
    NotInSlots(c, d, 'x');
    Regroup(a, ZPlaceholder, b, XPlaceholder, c, YPlaceholder, d);
    ReplaceOnce(a + ZPlaceholder + b, c + YPlaceholder + d, XPlaceholder, 'x', x);

    NotInSlots(a, b + dx + c, 'y');
    Regroup(a, ZPlaceholder, b, dx, c, YPlaceholder, d);
    ReplaceOnce(a + ZPlaceholder + (b + dx + c), d, YPlaceholder, 'y', y);

    Regroup(a, ZPlaceholder, b, dx, c, dy, d);
    ReplaceOnce(a, b + dx + c + dy + d, ZPlaceholder, 'z', z);
    Regroup(a, dz, b, dx, c, dy, d);
  }

  /** The letter `l` is in neither piece nor in the placeholder between them. */
  lemma NotInSlots(a: string, b: string, l: char)
    requires (l == 'x' || l == 'y') && l !in a && l !in b
    ensures l !in a + ZPlaceholder + b
    ensures l == 'x' ==> l !in a + YPlaceholder + b
  {
    assert ZPlaceholder == ['{', 'z', '}'] && YPlaceholder == ['{', 'y', '}'];
  }

  /** Regrouping of seven concatenated pieces. */
  lemma Regroup(a: string, p: string, b: string, q: string, c: string, r: string, d: string)
    ensures a + p + b + q + c + r + d == (a + p + b) + q + (c + r + d)
    ensures a + p + b + q + c + r + d == a + p + (b + q + c) + r + d
    ensures a + p + b + q + c + r + d == a + p + (b + q + c + r + d)
  {
  }

  /** The placeholders of the built-in template receive the three decimals. */
  lemma DefaultSubstitute(h: char, x: int, y: int, z: int)
    requires h != 'x' && h != 'y' && h != 'z'
    ensures Substitute("https://" + [h] + DefaultPath, x, y, z)
            == "https://" + [h] + ".tile.openstreetmap.org/" + Decimal(z) + "/" + Decimal(x) + "/" + Decimal(y) + ".png"
  {
    var a := "https://" + [h] + ".tile.openstreetmap.org/";
    assert NoSlotLetter(a) && NoSlotLetter("/") && NoSlotLetter(".png");
    assert "https://" + [h] + DefaultPath == a + ZPlaceholder + "/" + XPlaceholder + "/" + YPlaceholder + ".png";
    FillSlots(a, "/", "/", ".png", x, y, z);
  }

  /** `urlFor` with the built-in template, for any tile whose `x + y` does not overflow. */
  lemma DefaultTemplateUrl(x: Int, y: Int, z: int, isUrl: string -> bool)
    requires x >= 0 && y >= 0 && IsInt(x + y)
    ensures var s := "https://" + ["abc"[(x + y) % 3]] + ".tile.openstreetmap.org/"
                     + Decimal(z) + "/" + Decimal(x) + "/" + Decimal(y) + ".png";
            UrlText(DefaultTemplate, x, y, z, isUrl) == if isUrl(s) then Ok(s) else Err(MalformedUrl)
  {
    DefaultTemplateHost(x, y);
    DefaultSubstitute("abc"[(x + y) % 3], x, y, z);
  }

  lemma SmallDecimals()
    ensures Decimal(0) == "0" && Decimal(1) == "1" && Decimal(2) == "2"
  {
    assert NatDecimal(0) == "0" && NatDecimal(1) == "1" && NatDecimal(2) == "2";
  }

  lemma ExampleUrl()
    ensures "https://" + ['b'] + ".tile.openstreetmap.org/" + "2" + "/" + "1" + "/" + "0" + ".png"
            == "https://b.tile.openstreetmap.org/2/1/0.png"
  {
  }

  /** The tile (1, 0) at zoom 2 of the built-in template. */
  lemma DefaultTemplateExample(x: Int, y: Int, z: int, isUrl: string -> bool)
    requires x == 1 && y == 0 && z == 2
    requires isUrl("https://b.tile.openstreetmap.org/2/1/0.png")
    ensures UrlText(DefaultTemplate, x, y, z, isUrl) == Ok("https://b.tile.openstreetmap.org/2/1/0.png")
  {
    var s := "https://" + ["abc"[(x + y) % 3]] + ".tile.openstreetmap.org/"
             + Decimal(z) + "/" + Decimal(x) + "/" + Decimal(y) + ".png";
    assert s == "https://b.tile.openstreetmap.org/2/1/0.png" by {
      SmallDecimals();
      assert "abc"[(x + y) % 3] == 'b';
      ExampleUrl();
    }
    DefaultTemplateUrl(x, y, z, isUrl);
  }
}
