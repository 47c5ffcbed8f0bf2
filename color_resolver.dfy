/**
 * The colour resolution at the end of `get_options`: it turns the `--color`,
 * `--color2` and `--overlay-color` options into a background and a highlight
 * colour that meet the two contrast thresholds.
 *
 * The colour type is a type parameter, and the colour library enters as a
 * record of functions: spelling normalisation, parsing, the contrast ratio and
 * the inversion at a minimum contrast. `Color.random()` is replaced by a
 * sequence of colours drawn in order. Where the source would keep drawing after
 * that sequence is used up, the model stops with `Exhausted`.
 */
module ColorResolver {
  import opened Wrappers

  /** The spelling of `--color` that asks for a random background. */
  const RandomSentinel: string := "random"

  /** The spelling of `--color2` that asks for the inversion of the background. */
  const InvertedSentinel: string := "inverted"

  /** The operations of the colour library the resolution uses. */
  datatype ColorLib<!C> = ColorLib(
    normalized: string -> string,     // `normalized`, applied before comparing with a sentinel
    fromStr: string -> Option<C>,     // `Color.from_str`; `None` when it raises
    contrast: (C, C) -> real,         // `a / b`, the contrast ratio of two colours
    inverted: (C, real) -> Option<C>) // `c.inverted(min_contrast)`; `None` when it raises

  /** The parsed options the resolution reads. */
  datatype ColorOptions<C> = ColorOptions(
    color: string,
    color2: string,
    overlayColor: Option<C>,   // `--overlay-color`, already parsed by its option type
    overlayContrast: real,
    minContrast: real)

  /** How the resolution ends. */
  datatype Outcome<C> =
    | Resolved(color: C, color2: C, draws: nat)    // both colours, and how many random colours were drawn
    | ParseFailed(spec: string)                    // `Color.from_str` raised on this text
    | LowContrast(color: C, overlay: C, ratio: real) // the `RuntimeError` for a fixed background
    | Exhausted                                    // every supplied random colour was used

  predicate IsRandom<C>(lib: ColorLib<C>, opts: ColorOptions<C>) {
    lib.normalized(opts.color) == RandomSentinel
  }

  predicate IsInverted<C>(lib: ColorLib<C>, opts: ColorOptions<C>) {
    lib.normalized(opts.color2) == InvertedSentinel
  }

  /** The background meets the overlay threshold, or there is no overlay. */
  predicate OverlayMet<C>(lib: ColorLib<C>, opts: ColorOptions<C>, color: C) {
    opts.overlayColor.Some? ==> lib.contrast(color, opts.overlayColor.value) >= opts.overlayContrast
  }

  /**
   * The background is the parsed `--color` when nothing has been drawn, and
   * the last colour drawn otherwise.
   */
  ghost predicate Provenance<C>(lib: ColorLib<C>, opts: ColorOptions<C>, draws: seq<C>, used: nat, color: C) {
    used <= |draws| &&
    if used == 0 then !IsRandom(lib, opts) && lib.fromStr(opts.color) == Some(color)
    else color == draws[used - 1]
  }

  /**
   * The explicit background was parsed, met the overlay threshold and had no
   * inversion: the only way the resolution replaces it by a random colour.
   */
  ghost predicate PinnedWasReplaced<C>(lib: ColorLib<C>, opts: ColorOptions<C>) {
    && IsInverted(lib, opts)
    && lib.fromStr(opts.color).Some?
    && OverlayMet(lib, opts, lib.fromStr(opts.color).value)
    && lib.inverted(lib.fromStr(opts.color).value, opts.minContrast).None?
  }

  // ---------------------------------------------------------------------------
  // The reference definition: which supplied colour the resolution settles on.
  // ---------------------------------------------------------------------------

  /** A background the resolution accepts: it meets the overlay threshold and, under `inverted`, has an inversion. */
  ghost predicate Acceptable<C>(lib: ColorLib<C>, opts: ColorOptions<C>, c: C) {
    OverlayMet(lib, opts, c) && (IsInverted(lib, opts) ==> lib.inverted(c, opts.minContrast).Some?)
  }

  /** The end of a resolution whose background `c` is accepted after `used` draws. */
  ghost function Finish<C>(lib: ColorLib<C>, opts: ColorOptions<C>, c: C, used: nat): Outcome<C>
    requires Acceptable(lib, opts, c)
  {
    if IsInverted(lib, opts) then Resolved(c, lib.inverted(c, opts.minContrast).value, used)
    else match lib.fromStr(opts.color2)
      case None => ParseFailed(opts.color2)
      case Some(h) => Resolved(c, h, used)
  }

  /** A random background: the first acceptable colour among `draws[i..]`. */
  ghost function FirstAcceptable<C>(lib: ColorLib<C>, opts: ColorOptions<C>, draws: seq<C>, i: nat): Outcome<C>
    requires i <= |draws|
    decreases |draws| - i
  {
    if i == |draws| then Exhausted
    else if Acceptable(lib, opts, draws[i]) then Finish(lib, opts, draws[i], i + 1)
    else FirstAcceptable(lib, opts, draws, i + 1)
  }

  /** A replacement colour that ends the search: it fails the overlay threshold, or it has an inversion. */
  ghost predicate Decisive<C>(lib: ColorLib<C>, opts: ColorOptions<C>, c: C) {
    !OverlayMet(lib, opts, c) || lib.inverted(c, opts.minContrast).Some?
  }

  /**
   * An explicit background that has no inversion: the random colours that
   * replace it are no longer redrawn for the overlay, so the first one that
   * fails the overlay is fatal and the first one with an inversion is taken.
   */
  ghost function FirstDecisive<C>(lib: ColorLib<C>, opts: ColorOptions<C>, draws: seq<C>, i: nat): Outcome<C>
    requires i <= |draws|
    decreases |draws| - i
  {
    if i == |draws| then Exhausted
    else if !OverlayMet(lib, opts, draws[i]) then
      LowContrast(draws[i], opts.overlayColor.value, lib.contrast(draws[i], opts.overlayColor.value))
    else match lib.inverted(draws[i], opts.minContrast)
      case Some(h) => Resolved(draws[i], h, i + 1)
      case None => FirstDecisive(lib, opts, draws, i + 1)
  }

  /** How the resolution ends, for given options and supplied random colours. */
  ghost function ResolveSpec<C>(lib: ColorLib<C>, opts: ColorOptions<C>, draws: seq<C>): Outcome<C> {
    if IsRandom(lib, opts) then FirstAcceptable(lib, opts, draws, 0)
    else match lib.fromStr(opts.color)
      case None => ParseFailed(opts.color)
      case Some(c) =>
        if !OverlayMet(lib, opts, c) then
          LowContrast(c, opts.overlayColor.value, lib.contrast(c, opts.overlayColor.value))
        else if Acceptable(lib, opts, c) then Finish(lib, opts, c, 0)
        else FirstDecisive(lib, opts, draws, 0)
  }

  /**
   * Resolves the background and highlight colours, drawing random colours from
   * `draws` in order whenever the source calls `Color.random()`.
   */
  method Resolve<C>(lib: ColorLib<C>, opts: ColorOptions<C>, draws: seq<C>) returns (res: Outcome<C>)
    ensures res == ResolveSpec(lib, opts, draws)
    // A resolved pair meets every active threshold.
    ensures res.Resolved? ==> OverlayMet(lib, opts, res.color)
    ensures res.Resolved? && IsInverted(lib, opts) ==> lib.inverted(res.color, opts.minContrast) == Some(res.color2)
    ensures res.Resolved? && !IsInverted(lib, opts) ==> lib.fromStr(opts.color2) == Some(res.color2)
    // The background is the parsed `--color` or the last random colour drawn.
    ensures res.Resolved? ==> Provenance(lib, opts, draws, res.draws, res.color)
    ensures res.Resolved? && IsRandom(lib, opts) ==> res.draws >= 1
    // The fatal contrast error needs a background that was not random at the start.
    ensures res.LowContrast? ==>
              && !IsRandom(lib, opts) && opts.overlayColor == Some(res.overlay)
              && res.ratio == lib.contrast(res.color, res.overlay) && res.ratio < opts.overlayContrast
    // ... and the colour it names is that background, or a random colour drawn after it had no inversion.
    ensures res.LowContrast? ==>
              || lib.fromStr(opts.color) == Some(res.color)
              || (PinnedWasReplaced(lib, opts) && res.color in draws)
    // A parse error names a text that is not a sentinel and that `Color.from_str` rejects.
    ensures res.ParseFailed? ==>
              || (res.spec == opts.color && !IsRandom(lib, opts) && lib.fromStr(opts.color).None?)
              || (res.spec == opts.color2 && !IsInverted(lib, opts) && lib.fromStr(opts.color2).None?)
    // Without either sentinel nothing is ever drawn.
    ensures !IsRandom(lib, opts) && !IsInverted(lib, opts) ==> !res.Exhausted? && (res.Resolved? ==> res.draws == 0)
    // Explicit colours and no overlay: both texts are parsed, nothing else happens.
    ensures !IsRandom(lib, opts) && !IsInverted(lib, opts) && opts.overlayColor.None? ==>
              res == if lib.fromStr(opts.color).None? then ParseFailed(opts.color)
                     else if lib.fromStr(opts.color2).None? then ParseFailed(opts.color2)
                     else Resolved(lib.fromStr(opts.color).value, lib.fromStr(opts.color2).value, 0)
    // An explicit background below the overlay threshold is the fatal error, at once.
    ensures !IsRandom(lib, opts) && lib.fromStr(opts.color).Some? && opts.overlayColor.Some? &&
            lib.contrast(lib.fromStr(opts.color).value, opts.overlayColor.value) < opts.overlayContrast ==>
              res == LowContrast(lib.fromStr(opts.color).value, opts.overlayColor.value,
                                 lib.contrast(lib.fromStr(opts.color).value, opts.overlayColor.value))
    // An explicit background is replaced by random ones only when it has no inversion.
    ensures res.Resolved? && !IsRandom(lib, opts) && res.draws > 0 ==> PinnedWasReplaced(lib, opts)
  {
    var random := IsRandom(lib, opts);
    var inverted := IsInverted(lib, opts);
    var color: C;
    var used: nat := 0;
    if random {
      if |draws| == 0 {
        return Exhausted;
      }
      color, used := draws[0], 1;
    } else {
      var parsed := lib.fromStr(opts.color);
      if parsed.None? {
        return ParseFailed(opts.color);
      }
      color := parsed.value;
    }

    while true
      invariant Provenance(lib, opts, draws, used, color)
      invariant random ==> used >= 1
      invariant !random && !inverted ==> used == 0
      invariant !random && used > 0 ==> PinnedWasReplaced(lib, opts)
      invariant random ==> ResolveSpec(lib, opts, draws) == FirstAcceptable(lib, opts, draws, used - 1)
      invariant !random && used > 0 ==> ResolveSpec(lib, opts, draws) == FirstDecisive(lib, opts, draws, used - 1)
      decreases |draws| - used
    {
      if opts.overlayColor.Some? {
        var overlay := opts.overlayColor.value;
        if !random && lib.contrast(color, overlay) < opts.overlayContrast {
          return LowContrast(color, overlay, lib.contrast(color, overlay));
        }
        while lib.contrast(color, overlay) < opts.overlayContrast
          invariant Provenance(lib, opts, draws, used, color)
          invariant !random ==> OverlayMet(lib, opts, color)
          invariant random ==> used >= 1
          invariant !random && !inverted ==> used == 0
          invariant !random && used > 0 ==> PinnedWasReplaced(lib, opts)
          invariant random ==> ResolveSpec(lib, opts, draws) == FirstAcceptable(lib, opts, draws, used - 1)
          invariant !random && used > 0 ==> ResolveSpec(lib, opts, draws) == FirstDecisive(lib, opts, draws, used - 1)
          decreases |draws| - used
        {
          if used == |draws| {
            return Exhausted;
          }
          color, used := draws[used], used + 1;
        }
      }
      if inverted {
        var highlight := lib.inverted(color, opts.minContrast);
        if highlight.Some? {
          return Resolved(color, highlight.value, used);
        }
        if used == |draws| {
          return Exhausted;
        }
        color, used := draws[used], used + 1;
      } else {
        var highlight := lib.fromStr(opts.color2);
        if highlight.None? {
          return ParseFailed(opts.color2);
        }
        return Resolved(color, highlight.value, used);
      }
    }
  }

  // ---------------------------------------------------------------------------
  // Which supplied colour wins.
  // ---------------------------------------------------------------------------

  /** Among random backgrounds, the first acceptable one is taken, and the count of draws ends at it. */
  lemma {:induction false} FirstAcceptableAt<C>(lib: ColorLib<C>, opts: ColorOptions<C>, draws: seq<C>, i: nat, k: nat)
    requires i <= k < |draws| && Acceptable(lib, opts, draws[k])
    requires forall j :: i <= j < k ==> !Acceptable(lib, opts, draws[j])
    ensures FirstAcceptable(lib, opts, draws, i) == Finish(lib, opts, draws[k], k + 1)
    decreases k - i
  {
    if i < k {
      FirstAcceptableAt(lib, opts, draws, i + 1, k);
    }
  }

  /** The random colours run out exactly when none of them is acceptable. */
  lemma {:induction false} FirstAcceptableExhausted<C>(lib: ColorLib<C>, opts: ColorOptions<C>, draws: seq<C>, i: nat)
    requires i <= |draws|
    ensures FirstAcceptable(lib, opts, draws, i) == Exhausted <==>
            forall k :: i <= k < |draws| ==> !Acceptable(lib, opts, draws[k])
    decreases |draws| - i
  {
    if i < |draws| {
      FirstAcceptableExhausted(lib, opts, draws, i + 1);
    }
  }

  /** After an explicit background was replaced, the first decisive colour settles the outcome. */
  lemma {:induction false} FirstDecisiveAt<C>(lib: ColorLib<C>, opts: ColorOptions<C>, draws: seq<C>, i: nat, k: nat)
    requires i <= k < |draws| && Decisive(lib, opts, draws[k])
    requires forall j :: i <= j < k ==> !Decisive(lib, opts, draws[j])
    ensures FirstDecisive(lib, opts, draws, i) ==
            if !OverlayMet(lib, opts, draws[k]) then
              LowContrast(draws[k], opts.overlayColor.value, lib.contrast(draws[k], opts.overlayColor.value))
            else Resolved(draws[k], lib.inverted(draws[k], opts.minContrast).value, k + 1)
    decreases k - i
  {
    if i < k {
      FirstDecisiveAt(lib, opts, draws, i + 1, k);
    }
  }

  /** After an explicit background was replaced, the colours run out exactly when none is decisive. */
  lemma {:induction false} FirstDecisiveExhausted<C>(lib: ColorLib<C>, opts: ColorOptions<C>, draws: seq<C>, i: nat)
    requires i <= |draws|
    ensures FirstDecisive(lib, opts, draws, i) == Exhausted <==>
            forall k :: i <= k < |draws| ==> !Decisive(lib, opts, draws[k])
    decreases |draws| - i
  {
    if i < |draws| {
      FirstDecisiveExhausted(lib, opts, draws, i + 1);
    }
  }

  /**
   * A random background: the first supplied colour that meets the overlay
   * threshold (and, under `inverted`, has an inversion) is the one kept.
   */
  lemma RandomFirstAcceptableWins<C>(lib: ColorLib<C>, opts: ColorOptions<C>, draws: seq<C>, k: nat)
    requires IsRandom(lib, opts)
    requires k < |draws| && Acceptable(lib, opts, draws[k])
    requires forall j :: 0 <= j < k ==> !Acceptable(lib, opts, draws[j])
    ensures ResolveSpec(lib, opts, draws) == Finish(lib, opts, draws[k], k + 1)
  {
    FirstAcceptableAt(lib, opts, draws, 0, k);
  }

  /** A random background runs out of colours exactly when no supplied colour is acceptable. */
  lemma RandomExhausted<C>(lib: ColorLib<C>, opts: ColorOptions<C>, draws: seq<C>)
    requires IsRandom(lib, opts)
    ensures ResolveSpec(lib, opts, draws) == Exhausted <==>
            forall k :: 0 <= k < |draws| ==> !Acceptable(lib, opts, draws[k])
  {
    FirstAcceptableExhausted(lib, opts, draws, 0);
  }

  /** An explicit background that is acceptable is kept: nothing is drawn. */
  lemma PinnedKept<C>(lib: ColorLib<C>, opts: ColorOptions<C>, draws: seq<C>, c: C)
    requires !IsRandom(lib, opts) && lib.fromStr(opts.color) == Some(c) && Acceptable(lib, opts, c)
    ensures ResolveSpec(lib, opts, draws) == Finish(lib, opts, c, 0)
    ensures !ResolveSpec(lib, opts, draws).Exhausted?
  {
  }

  /**
   * An explicit background with no inversion is replaced without an error, and
   * the first replacement that falls short of the overlay threshold is fatal
   * even though it is a random colour.
   */
  lemma {:induction false} PinnedReplaced<C>(lib: ColorLib<C>, opts: ColorOptions<C>, draws: seq<C>, k: nat)
    requires !IsRandom(lib, opts) && PinnedWasReplaced(lib, opts)
    requires k < |draws| && Decisive(lib, opts, draws[k])
    requires forall j :: 0 <= j < k ==> !Decisive(lib, opts, draws[j])
    ensures !OverlayMet(lib, opts, draws[k]) ==>
              ResolveSpec(lib, opts, draws) ==
              LowContrast(draws[k], opts.overlayColor.value, lib.contrast(draws[k], opts.overlayColor.value))
    ensures OverlayMet(lib, opts, draws[k]) ==>
              ResolveSpec(lib, opts, draws) ==
              Resolved(draws[k], lib.inverted(draws[k], opts.minContrast).value, k + 1)
  {
    FirstDecisiveAt(lib, opts, draws, 0, k);
  }

  /** An explicit background with no inversion runs out of colours exactly when no replacement is decisive. */
  lemma PinnedReplacedExhausted<C>(lib: ColorLib<C>, opts: ColorOptions<C>, draws: seq<C>)
    requires !IsRandom(lib, opts) && PinnedWasReplaced(lib, opts)
    ensures ResolveSpec(lib, opts, draws) == Exhausted <==>
            forall k :: 0 <= k < |draws| ==> !Decisive(lib, opts, draws[k])
  {
    FirstDecisiveExhausted(lib, opts, draws, 0);
  }
}
