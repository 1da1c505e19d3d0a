/** The font fallback resolver of PDFDocument: a line's text is cut into
    maximal runs, each code point going to the first font of the chain that
    can encode it. */
module FontFallback {
  import opened Types

  /** A run: a piece of a line's text and the font chosen for it. */
  datatype TextWithFont<F> = TextWithFont(text: Text, font: F)

  /** The position in the chain of the first font that can encode `cp`. */
  function FirstFit<F>(fonts: seq<F>, canEncode: (F, CodePoint) -> bool, cp: CodePoint): (r: Option<nat>)
    ensures r.Some? ==> r.value < |fonts| && canEncode(fonts[r.value], cp)
    ensures r.Some? ==> forall j :: 0 <= j < r.value ==> !canEncode(fonts[j], cp)
    ensures r.None? ==> forall j :: 0 <= j < |fonts| ==> !canEncode(fonts[j], cp)
  {
    if fonts == [] then None
    else if canEncode(fonts[0], cp) then Some(0)
    else match FirstFit(fonts[1..], canEncode, cp)
      case None => None
      case Some(k) => Some(k + 1)
  }

  /** `f` is the font the resolver picks for `cp`. */
  predicate PicksFont<F(==)>(fonts: seq<F>, canEncode: (F, CodePoint) -> bool, cp: CodePoint, f: F) {
    var r := FirstFit(fonts, canEncode, cp);
    r.Some? && fonts[r.value] == f
  }

  /** `cp`, drawn with `f`, added after `runs`: the last run grows when it
      already uses `f`, otherwise a new run starts. */
  function Extend<F(==)>(runs: seq<TextWithFont<F>>, f: F, cp: CodePoint): seq<TextWithFont<F>> {
    if runs != [] && runs[|runs| - 1].font == f
    then runs[..|runs| - 1] + [TextWithFont(runs[|runs| - 1].text + [cp], f)]
    else runs + [TextWithFont([cp], f)]
  }

  /** The runs of the first `n` code points of `text`, read left to right
      one code point at a time; the first code point no font can encode is
      the error. */
  function RunsOf<F(==)>(fonts: seq<F>, canEncode: (F, CodePoint) -> bool, text: Text, n: nat): Result<seq<TextWithFont<F>>, Error>
    requires n <= |text|
  {
    if n == 0 then Ok([])
    else
      match RunsOf(fonts, canEncode, text, n - 1)
      case Err(e) => Err(e)
      case Ok(runs) =>
        match FirstFit(fonts, canEncode, text[n - 1])
        case None => Err(CannotEncode(text[n - 1]))
        case Some(k) => Ok(Extend(runs, fonts[k], text[n - 1]))
  }

  /** The runs of the whole text. */
  function Runs<F(==)>(fonts: seq<F>, canEncode: (F, CodePoint) -> bool, text: Text): Result<seq<TextWithFont<F>>, Error> {
    RunsOf(fonts, canEncode, text, |text|)
  }

  /** The texts of the runs, one after the other. */
  function Concat<F>(runs: seq<TextWithFont<F>>): Text {
    if runs == [] then [] else Concat(runs[..|runs| - 1]) + runs[|runs| - 1].text
  }

  ghost predicate NonEmptyRuns<F>(runs: seq<TextWithFont<F>>) {
    forall k :: 0 <= k < |runs| ==> runs[k].text != []
  }

  ghost predicate FontsAlternate<F>(runs: seq<TextWithFont<F>>) {
    forall k :: 0 < k < |runs| ==> runs[k - 1].font != runs[k].font
  }

  /** Every code point of `t` has `f` as its first fit. */
  ghost predicate AllPick<F>(fonts: seq<F>, canEncode: (F, CodePoint) -> bool, t: Text, f: F) {
    forall j :: 0 <= j < |t| ==> PicksFont(fonts, canEncode, t[j], f)
  }

  ghost predicate FontsPicked<F>(fonts: seq<F>, canEncode: (F, CodePoint) -> bool, runs: seq<TextWithFont<F>>) {
    forall k :: 0 <= k < |runs| ==> AllPick(fonts, canEncode, runs[k].text, runs[k].font)
  }

  /** `runs` cuts `text` into non-empty pieces with no gap and no overlap,
      every code point of a run has that run's font as its first fit, and
      neighbouring runs have different fonts (so no run can be longer). */
  ghost predicate IsRunSplit<F>(fonts: seq<F>, canEncode: (F, CodePoint) -> bool, text: Text, runs: seq<TextWithFont<F>>) {
    && Concat(runs) == text
    && NonEmptyRuns(runs)
    && FontsAlternate(runs)
    && FontsPicked(fonts, canEncode, runs)
  }

  lemma ConcatSnoc<F>(runs: seq<TextWithFont<F>>, r: TextWithFont<F>)
    ensures Concat(runs + [r]) == Concat(runs) + r.text
  {
    assert (runs + [r])[..|runs|] == runs;
  }

  lemma PrefixSnoc<T>(s: seq<T>, i: nat)
    requires i < |s|
    ensures s[..i] + [s[i]] == s[..i + 1]
  {
  }

  lemma DropLastSnoc<T>(s: seq<T>)
    requires s != []
    ensures s[..|s| - 1] + [s[|s| - 1]] == s
  {
  }

  lemma SliceSnoc<T>(s: seq<T>, a: nat, b: nat)
    requires a <= b < |s|
    ensures s[a..b] + [s[b]] == s[a..b + 1]
  {
  }

  /** Extending adds exactly `cp` to the text the runs cover. */
  lemma ExtendConcat<F>(runs: seq<TextWithFont<F>>, f: F, cp: CodePoint)
    ensures Concat(Extend(runs, f, cp)) == Concat(runs) + [cp]
  {
    if runs != [] && runs[|runs| - 1].font == f {
      var init, last := runs[..|runs| - 1], runs[|runs| - 1];
      assert runs == init + [last];
      ConcatSnoc(init, last);
      ConcatSnoc(init, TextWithFont(last.text + [cp], f));
    } else {
      ConcatSnoc(runs, TextWithFont([cp], f));
    }
  }

  lemma ExtendNonEmpty<F>(runs: seq<TextWithFont<F>>, f: F, cp: CodePoint)
    requires NonEmptyRuns(runs)
    ensures NonEmptyRuns(Extend(runs, f, cp))
  {
  }

  lemma ExtendAlternates<F>(runs: seq<TextWithFont<F>>, f: F, cp: CodePoint)
    requires FontsAlternate(runs)
    ensures FontsAlternate(Extend(runs, f, cp))
  {
  }

  lemma ExtendPicked<F>(fonts: seq<F>, canEncode: (F, CodePoint) -> bool, runs: seq<TextWithFont<F>>, f: F, cp: CodePoint)
    requires FontsPicked(fonts, canEncode, runs)
    requires PicksFont(fonts, canEncode, cp, f)
    ensures FontsPicked(fonts, canEncode, Extend(runs, f, cp))
  {
    var ext := Extend(runs, f, cp);
    forall k | 0 <= k < |ext| ensures AllPick(fonts, canEncode, ext[k].text, ext[k].font) {
      if k < |runs| {
        assert AllPick(fonts, canEncode, runs[k].text, runs[k].font);
        forall j | 0 <= j < |ext[k].text| ensures PicksFont(fonts, canEncode, ext[k].text[j], ext[k].font) {
          if j < |runs[k].text| {
            assert ext[k].text[j] == runs[k].text[j] && ext[k].font == runs[k].font;
          }
        }
      }
    }
  }

  lemma ExtendKeepsSplit<F>(fonts: seq<F>, canEncode: (F, CodePoint) -> bool, text: Text,
                            runs: seq<TextWithFont<F>>, f: F, cp: CodePoint)
    requires IsRunSplit(fonts, canEncode, text, runs)
    requires PicksFont(fonts, canEncode, cp, f)
    ensures IsRunSplit(fonts, canEncode, text + [cp], Extend(runs, f, cp))
  {
    ExtendConcat(runs, f, cp);
    ExtendNonEmpty(runs, f, cp);
    ExtendAlternates(runs, f, cp);
    ExtendPicked(fonts, canEncode, runs, f, cp);
  }

  /** A successful read of `n` code points extends a successful read of
      the first `n - 1` with the first fit of the last one. */
  lemma RunsOfStep<F>(fonts: seq<F>, canEncode: (F, CodePoint) -> bool, text: Text, n: nat)
    requires 0 < n <= |text| && RunsOf(fonts, canEncode, text, n).Ok?
    ensures RunsOf(fonts, canEncode, text, n - 1).Ok? && FirstFit(fonts, canEncode, text[n - 1]).Some?
    ensures RunsOf(fonts, canEncode, text, n)
            == Ok(Extend(RunsOf(fonts, canEncode, text, n - 1).value, fonts[FirstFit(fonts, canEncode, text[n - 1]).value], text[n - 1]))
  {
  }

  /** One more code point of the text, in its first-fit font, keeps a run
      split of the text read so far. */
  lemma ExtendPrefixSplit<F>(fonts: seq<F>, canEncode: (F, CodePoint) -> bool, text: Text, n: nat,
                             runs: seq<TextWithFont<F>>, f: F)
    requires 0 < n <= |text|
    requires IsRunSplit(fonts, canEncode, text[..n - 1], runs)
    requires PicksFont(fonts, canEncode, text[n - 1], f)
    ensures IsRunSplit(fonts, canEncode, text[..n], Extend(runs, f, text[n - 1]))
  {
    ExtendKeepsSplit(fonts, canEncode, text[..n - 1], runs, f, text[n - 1]);
    PrefixSnoc(text, n - 1);
  }

  lemma {:induction false} RunsOfIsSplit<F>(fonts: seq<F>, canEncode: (F, CodePoint) -> bool, text: Text, n: nat)
    requires n <= |text| && RunsOf(fonts, canEncode, text, n).Ok?
    ensures IsRunSplit(fonts, canEncode, text[..n], RunsOf(fonts, canEncode, text, n).value)
  {
    if n > 0 {
      RunsOfStep(fonts, canEncode, text, n);
      RunsOfIsSplit(fonts, canEncode, text, n - 1);
      var k := FirstFit(fonts, canEncode, text[n - 1]).value;
      ExtendPrefixSplit(fonts, canEncode, text, n, RunsOf(fonts, canEncode, text, n - 1).value, fonts[k]);
    }
  }

  /** Whatever `Runs` returns on success is a run split of the text. */
  lemma RunsIsSplit<F>(fonts: seq<F>, canEncode: (F, CodePoint) -> bool, text: Text)
    requires Runs(fonts, canEncode, text).Ok?
    ensures IsRunSplit(fonts, canEncode, text, Runs(fonts, canEncode, text).value)
  {
    RunsOfIsSplit(fonts, canEncode, text, |text|);
    assert text[..|text|] == text;
  }

  /** The last run of a split ends with the last code point of the text. */
  lemma LastRunEndsText<F>(runs: seq<TextWithFont<F>>, text: Text)
    requires Concat(runs) == text
    requires runs != [] && runs[|runs| - 1].text != []
    ensures text != []
    ensures Concat(runs[..|runs| - 1]) + runs[|runs| - 1].text == text
    ensures runs[|runs| - 1].text[|runs[|runs| - 1].text| - 1] == text[|text| - 1]
  {
  }

  /** Dropping the last run when it holds one code point leaves a run split
      of the text without its last code point. */
  lemma DropLastRun<F>(fonts: seq<F>, canEncode: (F, CodePoint) -> bool, text: Text, runs: seq<TextWithFont<F>>)
    requires IsRunSplit(fonts, canEncode, text, runs)
    requires runs != [] && |runs[|runs| - 1].text| == 1
    ensures text != [] && runs[|runs| - 1].text == [text[|text| - 1]]
    ensures IsRunSplit(fonts, canEncode, text[..|text| - 1], runs[..|runs| - 1])
  {
    var init, last := runs[..|runs| - 1], runs[|runs| - 1];
    LastRunEndsText(runs, text);
    assert last.text == [last.text[0]];
    assert Concat(init) == text[..|text| - 1];
    assert FontsPicked(fonts, canEncode, init) by {
      forall k | 0 <= k < |init| ensures AllPick(fonts, canEncode, init[k].text, init[k].font) {
        assert init[k] == runs[k];
      }
    }
  }

  /** The runs with the last code point taken off the last run. */
  function ShortenLast<F>(runs: seq<TextWithFont<F>>): seq<TextWithFont<F>>
    requires runs != [] && runs[|runs| - 1].text != []
  {
    var last := runs[|runs| - 1];
    runs[..|runs| - 1] + [TextWithFont(last.text[..|last.text| - 1], last.font)]
  }

  lemma ShortenedPicked<F>(fonts: seq<F>, canEncode: (F, CodePoint) -> bool, runs: seq<TextWithFont<F>>)
    requires FontsPicked(fonts, canEncode, runs)
    requires runs != [] && |runs[|runs| - 1].text| > 1
    ensures FontsPicked(fonts, canEncode, ShortenLast(runs))
  {
    var runs' := ShortenLast(runs);
    forall k | 0 <= k < |runs'| ensures AllPick(fonts, canEncode, runs'[k].text, runs'[k].font) {
      assert AllPick(fonts, canEncode, runs[k].text, runs[k].font);
      forall j | 0 <= j < |runs'[k].text| ensures PicksFont(fonts, canEncode, runs'[k].text[j], runs'[k].font) {
        assert runs'[k].text[j] == runs[k].text[j] && runs'[k].font == runs[k].font;
      }
    }
  }

  lemma ShortenedAlternates<F>(runs: seq<TextWithFont<F>>)
    requires FontsAlternate(runs)
    requires runs != [] && |runs[|runs| - 1].text| > 1
    ensures FontsAlternate(ShortenLast(runs))
  {
    var runs' := ShortenLast(runs);
    forall k | 0 < k < |runs'| ensures runs'[k - 1].font != runs'[k].font {
      assert runs'[k - 1].font == runs[k - 1].font && runs'[k].font == runs[k].font;
    }
  }

  lemma ShortenedConcat<F>(runs: seq<TextWithFont<F>>, text: Text)
    requires Concat(runs) == text
    requires runs != [] && |runs[|runs| - 1].text| > 1
    ensures text != []
    ensures Concat(ShortenLast(runs)) == text[..|text| - 1]
  {
    var init, last := runs[..|runs| - 1], runs[|runs| - 1];
    LastRunEndsText(runs, text);
    var m := |last.text|;
    var shorter := TextWithFont(last.text[..m - 1], last.font);
    ConcatSnoc(init, shorter);
    DropLastSnoc(last.text);
  }

  /** Removing the last code point of a longer last run leaves a run split
      of the text without its last code point. */
  lemma ShortenLastRun<F>(fonts: seq<F>, canEncode: (F, CodePoint) -> bool, text: Text, runs: seq<TextWithFont<F>>)
    requires IsRunSplit(fonts, canEncode, text, runs)
    requires runs != [] && |runs[|runs| - 1].text| > 1
    ensures text != []
    ensures runs[|runs| - 1].text[|runs[|runs| - 1].text| - 1] == text[|text| - 1]
    ensures IsRunSplit(fonts, canEncode, text[..|text| - 1], ShortenLast(runs))
  {
    LastRunEndsText(runs, text);
    ShortenedConcat(runs, text);
    ShortenedAlternates(runs);
    ShortenedPicked(fonts, canEncode, runs);
  }

  lemma ExtendRebuildsSingle<F>(runs: seq<TextWithFont<F>>)
    requires runs != [] && |runs[|runs| - 1].text| == 1
    requires |runs| > 1 ==> runs[|runs| - 2].font != runs[|runs| - 1].font
    ensures Extend(runs[..|runs| - 1], runs[|runs| - 1].font, runs[|runs| - 1].text[0]) == runs
  {
    var init, last := runs[..|runs| - 1], runs[|runs| - 1];
    assert last.text == [last.text[0]];
    assert init != [] ==> init[|init| - 1] == runs[|runs| - 2];
    assert init + [last] == runs;
  }

  lemma ExtendRebuildsLonger<F>(runs: seq<TextWithFont<F>>)
    requires runs != [] && |runs[|runs| - 1].text| > 1
    ensures Extend(ShortenLast(runs), runs[|runs| - 1].font, runs[|runs| - 1].text[|runs[|runs| - 1].text| - 1]) == runs
  {
    var init, last := runs[..|runs| - 1], runs[|runs| - 1];
    var m := |last.text|;
    var shorter := ShortenLast(runs);
    assert shorter[..|shorter| - 1] == init;
    assert last.text[..m - 1] + [last.text[m - 1]] == last.text;
    assert init + [last] == runs;
  }

  /** A split of the first `n` code points whose last run is a single code
      point: without it, a split of the first `n - 1`. */
  lemma DropLastOfPrefix<F>(fonts: seq<F>, canEncode: (F, CodePoint) -> bool, text: Text, n: nat,
                            runs: seq<TextWithFont<F>>)
    requires n <= |text| && IsRunSplit(fonts, canEncode, text[..n], runs)
    requires runs != [] && |runs[|runs| - 1].text| == 1
    ensures 0 < n && runs[|runs| - 1].text[0] == text[n - 1]
    ensures PicksFont(fonts, canEncode, text[n - 1], runs[|runs| - 1].font)
    ensures |runs| > 1 ==> runs[|runs| - 2].font != runs[|runs| - 1].font
    ensures IsRunSplit(fonts, canEncode, text[..n - 1], runs[..|runs| - 1])
  {
    DropLastRun(fonts, canEncode, text[..n], runs);
    assert text[..n][..n - 1] == text[..n - 1];
    assert AllPick(fonts, canEncode, runs[|runs| - 1].text, runs[|runs| - 1].font);
  }

  /** A split of the first `n` code points whose last run is longer: with
      that run shortened, a split of the first `n - 1`. */
  lemma ShortenLastOfPrefix<F>(fonts: seq<F>, canEncode: (F, CodePoint) -> bool, text: Text, n: nat,
                               runs: seq<TextWithFont<F>>)
    requires n <= |text| && IsRunSplit(fonts, canEncode, text[..n], runs)
    requires runs != [] && |runs[|runs| - 1].text| > 1
    ensures 0 < n && runs[|runs| - 1].text[|runs[|runs| - 1].text| - 1] == text[n - 1]
    ensures PicksFont(fonts, canEncode, text[n - 1], runs[|runs| - 1].font)
    ensures IsRunSplit(fonts, canEncode, text[..n - 1], ShortenLast(runs))
  {
    ShortenLastRun(fonts, canEncode, text[..n], runs);
    assert text[..n][..n - 1] == text[..n - 1];
    assert AllPick(fonts, canEncode, runs[|runs| - 1].text, runs[|runs| - 1].font);
  }

  lemma RebuildSingle<F>(fonts: seq<F>, canEncode: (F, CodePoint) -> bool, text: Text, n: nat,
                             runs: seq<TextWithFont<F>>)
    requires 0 < n <= |text| && runs != [] && |runs[|runs| - 1].text| == 1
    requires runs[|runs| - 1].text[0] == text[n - 1]
    requires PicksFont(fonts, canEncode, text[n - 1], runs[|runs| - 1].font)
    requires |runs| > 1 ==> runs[|runs| - 2].font != runs[|runs| - 1].font
    requires RunsOf(fonts, canEncode, text, n - 1) == Ok(runs[..|runs| - 1])
    ensures RunsOf(fonts, canEncode, text, n) == Ok(runs)
  {
    ExtendRebuildsSingle(runs);
  }

  lemma RebuildLonger<F>(fonts: seq<F>, canEncode: (F, CodePoint) -> bool, text: Text, n: nat,
                             runs: seq<TextWithFont<F>>)
    requires 0 < n <= |text| && runs != [] && |runs[|runs| - 1].text| > 1
    requires runs[|runs| - 1].text[|runs[|runs| - 1].text| - 1] == text[n - 1]
    requires PicksFont(fonts, canEncode, text[n - 1], runs[|runs| - 1].font)
    requires RunsOf(fonts, canEncode, text, n - 1) == Ok(ShortenLast(runs))
    ensures RunsOf(fonts, canEncode, text, n) == Ok(runs)
  {
    ExtendRebuildsLonger(runs);
  }

  /** Undoing the last step of a split: the split of the first `n - 1`
      code points that `RunsOf` extends to `runs`. */
  lemma UndoLast<F>(fonts: seq<F>, canEncode: (F, CodePoint) -> bool, text: Text, n: nat,
                    runs: seq<TextWithFont<F>>) returns (prev: seq<TextWithFont<F>>)
    requires n <= |text| && IsRunSplit(fonts, canEncode, text[..n], runs) && runs != []
    ensures 0 < n && IsRunSplit(fonts, canEncode, text[..n - 1], prev)
    ensures RunsOf(fonts, canEncode, text, n - 1) == Ok(prev) ==> RunsOf(fonts, canEncode, text, n) == Ok(runs)
  {
    if |runs[|runs| - 1].text| == 1 {
      DropLastOfPrefix(fonts, canEncode, text, n, runs);
      prev := runs[..|runs| - 1];
      if RunsOf(fonts, canEncode, text, n - 1) == Ok(prev) {
        RebuildSingle(fonts, canEncode, text, n, runs);
      }
    } else {
      assert runs[|runs| - 1].text != [];
      ShortenLastOfPrefix(fonts, canEncode, text, n, runs);
      prev := ShortenLast(runs);
      if RunsOf(fonts, canEncode, text, n - 1) == Ok(prev) {
        RebuildLonger(fonts, canEncode, text, n, runs);
      }
    }
  }

  /** The split of the first `n` code points is what `RunsOf` finds. */
  lemma {:induction false} SplitIsRunsOf<F>(fonts: seq<F>, canEncode: (F, CodePoint) -> bool, text: Text, n: nat,
                                            runs: seq<TextWithFont<F>>)
    requires n <= |text| && IsRunSplit(fonts, canEncode, text[..n], runs)
    ensures RunsOf(fonts, canEncode, text, n) == Ok(runs)
  {
    if runs == [] {
      assert |text[..n]| == 0;
    } else {
      var prev := UndoLast(fonts, canEncode, text, n, runs);
      SplitIsRunsOf(fonts, canEncode, text, n - 1, prev);
    }
  }

  /** Maximality: a text has only one run split, and `Runs` finds it. */
  lemma RunSplitIsUnique<F>(fonts: seq<F>, canEncode: (F, CodePoint) -> bool, text: Text,
                            runs: seq<TextWithFont<F>>)
    requires IsRunSplit(fonts, canEncode, text, runs)
    ensures Runs(fonts, canEncode, text) == Ok(runs)
  {
    assert text[..|text|] == text;
    SplitIsRunsOf(fonts, canEncode, text, |text|, runs);
  }

  /** Once a prefix fails, the whole text fails with the same error. */
  lemma {:induction false} RunsErrorPersists<F>(fonts: seq<F>, canEncode: (F, CodePoint) -> bool, text: Text, i: nat)
    requires i <= |text|
    requires RunsOf(fonts, canEncode, text, i).Err?
    ensures Runs(fonts, canEncode, text) == RunsOf(fonts, canEncode, text, i)
    decreases |text| - i
  {
    if i < |text| {
      RunsErrorPersists(fonts, canEncode, text, i + 1);
    }
  }

  lemma {:induction false} RunsOfSucceeds<F>(fonts: seq<F>, canEncode: (F, CodePoint) -> bool, text: Text, n: nat)
    requires n <= |text|
    ensures RunsOf(fonts, canEncode, text, n).Ok? <==>
              forall i :: 0 <= i < n ==> FirstFit(fonts, canEncode, text[i]).Some?
  {
    if n > 0 {
      RunsOfSucceeds(fonts, canEncode, text, n - 1);
    }
  }

  lemma {:induction false} RunsOfFirstError<F>(fonts: seq<F>, canEncode: (F, CodePoint) -> bool, text: Text, n: nat)
    requires n <= |text|
    ensures RunsOf(fonts, canEncode, text, n).Err? ==>
              exists i :: 0 <= i < n && RunsOf(fonts, canEncode, text, n).error == CannotEncode(text[i])
                          && FirstFit(fonts, canEncode, text[i]).None?
                          && forall j :: 0 <= j < i ==> FirstFit(fonts, canEncode, text[j]).Some?
  {
    if n > 0 {
      if RunsOf(fonts, canEncode, text, n - 1).Err? {
        RunsOfFirstError(fonts, canEncode, text, n - 1);
      } else {
        RunsOfSucceeds(fonts, canEncode, text, n - 1);
      }
    }
  }

  /** `Runs` fails exactly when some code point has no font, and then it
      reports the first such code point. */
  lemma RunsFailure<F>(fonts: seq<F>, canEncode: (F, CodePoint) -> bool, text: Text)
    ensures Runs(fonts, canEncode, text).Ok? <==>
              forall i :: 0 <= i < |text| ==> FirstFit(fonts, canEncode, text[i]).Some?
    ensures Runs(fonts, canEncode, text).Err? ==>
              exists i :: 0 <= i < |text| && Runs(fonts, canEncode, text).error == CannotEncode(text[i])
                          && FirstFit(fonts, canEncode, text[i]).None?
                          && forall j :: 0 <= j < i ==> FirstFit(fonts, canEncode, text[j]).Some?
  {
    RunsOfSucceeds(fonts, canEncode, text, |text|);
    RunsOfFirstError(fonts, canEncode, text, |text|);
  }

  lemma SingleRunStart<F>(fonts: seq<F>, canEncode: (F, CodePoint) -> bool, text: Text)
    requires fonts != [] && text != [] && canEncode(fonts[0], text[0])
    ensures RunsOf(fonts, canEncode, text, 1) == Ok([TextWithFont(text[..1], fonts[0])])
  {
    assert RunsOf(fonts, canEncode, text, 0) == Ok([]);
    assert FirstFit(fonts, canEncode, text[0]) == Some(0);
    assert Extend([], fonts[0], text[0]) == [TextWithFont([text[0]], fonts[0])];
    assert RunsOf(fonts, canEncode, text, 1) == Ok(Extend([], fonts[0], text[0]));
    assert text[..1] == [text[0]];
  }

  lemma SingleRunGrows<F>(fonts: seq<F>, canEncode: (F, CodePoint) -> bool, text: Text, n: nat)
    requires fonts != [] && 1 < n <= |text| && canEncode(fonts[0], text[n - 1])
    requires RunsOf(fonts, canEncode, text, n - 1) == Ok([TextWithFont(text[..n - 1], fonts[0])])
    ensures RunsOf(fonts, canEncode, text, n) == Ok([TextWithFont(text[..n], fonts[0])])
  {
    var run := TextWithFont(text[..n - 1], fonts[0]);
    assert FirstFit(fonts, canEncode, text[n - 1]) == Some(0);
    assert RunsOf(fonts, canEncode, text, n) == Ok(Extend([run], fonts[0], text[n - 1]));
    assert Extend([run], fonts[0], text[n - 1]) == [TextWithFont(text[..n - 1] + [text[n - 1]], fonts[0])];
    PrefixSnoc(text, n - 1);
  }

  lemma {:induction false} SingleRunOf<F>(fonts: seq<F>, canEncode: (F, CodePoint) -> bool, text: Text, n: nat)
    requires fonts != [] && 0 < n <= |text|
    requires forall i :: 0 <= i < |text| ==> canEncode(fonts[0], text[i])
    ensures RunsOf(fonts, canEncode, text, n) == Ok([TextWithFont(text[..n], fonts[0])])
  {
    if n == 1 {
      SingleRunStart(fonts, canEncode, text);
    } else {
      SingleRunOf(fonts, canEncode, text, n - 1);
      SingleRunGrows(fonts, canEncode, text, n);
    }
  }

  /** A text that the first font can encode throughout is one run in that font. */
  lemma SingleRun<F>(fonts: seq<F>, canEncode: (F, CodePoint) -> bool, text: Text)
    requires fonts != [] && text != []
    requires forall i :: 0 <= i < |text| ==> canEncode(fonts[0], text[i])
    ensures Runs(fonts, canEncode, text) == Ok([TextWithFont(text, fonts[0])])
  {
    SingleRunOf(fonts, canEncode, text, |text|);
    assert text[..|text|] == text;
  }

  /** Extending a split whose last run is still open. */
  lemma ExtendOpenRun<F>(runs: seq<TextWithFont<F>>, t: Text, g: F, f: F, cp: CodePoint)
    ensures g == f ==> Extend(runs + [TextWithFont(t, g)], f, cp) == runs + [TextWithFont(t + [cp], g)]
    ensures g != f ==> Extend(runs + [TextWithFont(t, g)], f, cp) == runs + [TextWithFont(t, g)] + [TextWithFont([cp], f)]
  {
    assert (runs + [TextWithFont(t, g)])[..|runs|] == runs;
  }

  /** The font at position `k` is the first one that encodes `cp`. */
  lemma FirstFitAt<F>(fonts: seq<F>, canEncode: (F, CodePoint) -> bool, cp: CodePoint, k: nat)
    requires k < |fonts| && canEncode(fonts[k], cp)
    requires forall j :: 0 <= j < k ==> !canEncode(fonts[j], cp)
    ensures FirstFit(fonts, canEncode, cp) == Some(k)
  {
  }

  /** What fontify holds part way through a text: the closed runs, then the
      open run `t` in `current` once a font has been chosen. */
  function Pending<F>(runs: seq<TextWithFont<F>>, current: Option<F>, t: Text): seq<TextWithFont<F>> {
    if current.None? then runs else runs + [TextWithFont(t, current.value)]
  }

  /** Fontify's outer loop invariant after reading `i` code points: the
      closed runs, then the open run from `start`, are the runs of what has
      been read. */
  ghost predicate Reading<F>(fonts: seq<F>, canEncode: (F, CodePoint) -> bool, text: Text, i: nat,
                                 runs: seq<TextWithFont<F>>, current: Option<F>, start: nat) {
    && start <= i <= |text|
    && (i == 0 <==> current.None?)
    && (i == 0 ==> runs == [])
    && RunsOf(fonts, canEncode, text, i) == Ok(Pending(runs, current, text[start..i]))
  }

  /** The closed runs after the code point at `i` is given font `f`. */
  function ClosedAfter<F(==)>(runs: seq<TextWithFont<F>>, current: Option<F>, text: Text, start: nat, i: nat, f: F): seq<TextWithFont<F>>
    requires start <= i <= |text|
  {
    if current != Some(f) && current.Some? then runs + [TextWithFont(text[start..i], current.value)] else runs
  }

  /** One iteration of fontify's outer loop keeps its invariant: the open
      run grows when the font stays; otherwise it is closed and a run of one
      code point opens in the new font. */
  lemma FontifyStep<F>(fonts: seq<F>, canEncode: (F, CodePoint) -> bool, text: Text, i: nat,
                           runs: seq<TextWithFont<F>>, current: Option<F>, start: nat, k: nat)
    requires i < |text| && Reading(fonts, canEncode, text, i, runs, current, start)
    requires k < |fonts| && canEncode(fonts[k], text[i])
    requires forall j :: 0 <= j < k ==> !canEncode(fonts[j], text[i])
    ensures Reading(fonts, canEncode, text, i + 1, ClosedAfter(runs, current, text, start, i, fonts[k]),
                    Some(fonts[k]), if current == Some(fonts[k]) then start else i)
  {
    FirstFitAt(fonts, canEncode, text[i], k);
    assert text[i..i + 1] == [text[i]];
    if current.Some? {
      ExtendOpenRun(runs, text[start..i], current.value, fonts[k], text[i]);
      if current == Some(fonts[k]) {
        SliceSnoc(text, start, i);
      }
    }
  }

  /** A code point no font encodes ends the read with that error. */
  lemma FontifyFails<F>(fonts: seq<F>, canEncode: (F, CodePoint) -> bool, text: Text, i: nat,
                            runs: seq<TextWithFont<F>>, current: Option<F>, start: nat)
    requires i < |text| && Reading(fonts, canEncode, text, i, runs, current, start)
    requires forall j :: 0 <= j < |fonts| ==> !canEncode(fonts[j], text[i])
    ensures Runs(fonts, canEncode, text) == Err(CannotEncode(text[i]))
  {
    assert FirstFit(fonts, canEncode, text[i]).None?;
    RunsErrorPersists(fonts, canEncode, text, i + 1);
  }

  /** At the end of a non-empty text the open run is the last run. */
  lemma FontifyDone<F>(fonts: seq<F>, canEncode: (F, CodePoint) -> bool, text: Text,
                           runs: seq<TextWithFont<F>>, current: Option<F>, start: nat)
    requires |text| > 0 && Reading(fonts, canEncode, text, |text|, runs, current, start)
    ensures current.Some?
    ensures Runs(fonts, canEncode, text) == Ok(runs + [TextWithFont(text[start..], current.value)])
  {
    assert text[start..|text|] == text[start..];
  }

  /** fontify: walks the text, giving each code point the first font that
      can encode it, and closes a run whenever that font changes. */
  method Fontify<F(==)>(fonts: seq<F>, canEncode: (F, CodePoint) -> bool, text: Text)
    returns (result: Result<seq<TextWithFont<F>>, Error>)
    ensures result == Runs(fonts, canEncode, text)
  {
    var runs: seq<TextWithFont<F>> := [];
    if |text| > 0 {
      var currentFont: Option<F> := None;
      var start := 0;
      var i := 0;
      while i < |text|
        invariant Reading(fonts, canEncode, text, i, runs, currentFont, start)
      {
        var cp := text[i];
        var encodable := false;
        ghost var runs0, font0, start0 := runs, currentFont, start;
        var k := 0;
        while k < |fonts|
          invariant 0 <= k <= |fonts|
          invariant forall j :: 0 <= j < k ==> !canEncode(fonts[j], cp)
          invariant !encodable && runs == runs0 && currentFont == font0 && start == start0
        {
          if canEncode(fonts[k], cp) {
            FontifyStep(fonts, canEncode, text, i, runs, currentFont, start, k);
            encodable := true;
            if currentFont != Some(fonts[k]) {
              if currentFont.Some? {
                runs := runs + [TextWithFont(text[start..i], currentFont.value)];
              }
              currentFont := Some(fonts[k]);
              start := i;
            }
            break;
          }
          k := k + 1;
        }
        if !encodable {
          FontifyFails(fonts, canEncode, text, i, runs, currentFont, start);
          return Err(CannotEncode(cp));
        }
        i := i + 1;
      }
      FontifyDone(fonts, canEncode, text, runs, currentFont, start);
      runs := runs + [TextWithFont(text[start..], currentFont.value)];
    }
    return Ok(runs);
  }
}
