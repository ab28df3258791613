/** The favorites export: the text offered as a download, built from the
    saved recipes' titles and image addresses. */
module Export {
  import opened Text
  import opened Recipes

  /** The separator the exporter joins entries with: the two characters
      backslash and `n`, not a line break. */
  const EntrySeparator: string := ['\\', 'n']

  /** Every favorite carries an image address, so each has a title/image pair. */
  predicate HasImages(favorites: seq<Recipe>)
  {
    forall i :: 0 <= i < |favorites| ==> favorites[i].image.Some?
  }

  /** No title or image address holds a line break. */
  predicate SingleLineFields(favorites: seq<Recipe>)
  {
    HasImages(favorites) &&
    forall i :: 0 <= i < |favorites| ==>
      '\n' !in favorites[i].title && '\n' !in favorites[i].image.value
  }

  /** One favorite's entry: its title line and its image line. The entry
      starts with the title, is followed by the image address, and ends in a
      line break. */
  function Entry(recipe: Recipe): (r: string)
    requires recipe.image.Some?
    ensures |r| == |recipe.title| + |recipe.image.value| + 2
    ensures r[..|recipe.title|] == recipe.title
    ensures r[|recipe.title|] == '\n' && r[|r| - 1] == '\n'
    ensures r[|recipe.title| + 1..|r| - 1] == recipe.image.value
  {
    recipe.title + "\n" + recipe.image.value + "\n"
  }

  function Entries(favorites: seq<Recipe>): (r: seq<string>)
    requires HasImages(favorites)
  {
    seq(|favorites|, i requires 0 <= i < |favorites| && favorites[i].image.Some? => Entry(favorites[i]))
  }

  /** The text `download_favorites_text` produces. It is empty exactly when
      there are no favorites. */
  function ExportText(favorites: seq<Recipe>): (r: string)
    requires HasImages(favorites)
    ensures |r| == 0 <==> |favorites| == 0
  {
    JoinWith(Entries(favorites), EntrySeparator)
  }

  /** `download_favorites_text`: collects one entry per favorite in a loop,
      then joins the entries with the backslash-`n` separator. The text is
      empty exactly when there are no favorites. */
  method DownloadFavoritesText(favorites: seq<Recipe>) returns (text: string)
    requires HasImages(favorites)
    ensures text == ExportText(favorites)
    ensures text == [] <==> favorites == []
  {
    var lines: seq<string> := [];
    for i := 0 to |favorites|
      invariant lines == Entries(favorites[..i])
    {
      lines := lines + [Entry(favorites[i])];
    }
    assert favorites[..|favorites|] == favorites;
    text := JoinWith(lines, EntrySeparator);
  }

  /** Peeling off the first favorite: its entry, the separator, then the
      export of the others. */
  lemma ExportCons(favorites: seq<Recipe>)
    requires HasImages(favorites) && |favorites| > 1
    ensures ExportText(favorites) == Entry(favorites[0]) + (EntrySeparator + ExportText(favorites[1..]))
  {
    assert Entries(favorites)[1..] == Entries(favorites[1..]);
  }

  /** The lines of the export as written, favorite by favorite: the title,
      the image address, and then the lines of the later favorites, whose
      first line gets the separator in front of it. */
  function WrittenLines(favorites: seq<Recipe>): (r: seq<string>)
    requires HasImages(favorites) && favorites != []
    ensures |r| == 2 * |favorites| + 1
    decreases |favorites|
  {
    var head := [favorites[0].title, favorites[0].image.value];
    if |favorites| == 1 then head + [[]]
    else
      var tail := WrittenLines(favorites[1..]);
      head + [EntrySeparator + tail[0]] + tail[1..]
  }

  lemma TwoLines(first: string, second: string, after: string)
    requires '\n' !in first && '\n' !in second
    ensures Split(first + ['\n'] + (second + ['\n'] + after), '\n')
         == [first, second] + Split(after, '\n')
  {
    SplitNoSep(first, '\n');
    SplitNoSep(second, '\n');
    SplitAppend(first, second + ['\n'] + after, '\n');
    SplitAppend(second, after, '\n');
  }

  /** An entry contributes its two lines and leaves what follows it to start
      a line of its own. */
  lemma EntrySplit(recipe: Recipe, after: string)
    requires recipe.image.Some? && '\n' !in recipe.title && '\n' !in recipe.image.value
    ensures Split(Entry(recipe) + after, '\n')
         == [recipe.title, recipe.image.value] + Split(after, '\n')
  {
    var title, image := recipe.title, recipe.image.value;
    assert Entry(recipe) + after == title + ['\n'] + (image + ['\n'] + after);
    TwoLines(title, image, after);
  }

  /** The separator sticks to the front of the line that follows it. */
  lemma SeparatorSplit(rest: string)
    ensures Split(EntrySeparator + rest, '\n')
         == [EntrySeparator + Split(rest, '\n')[0]] + Split(rest, '\n')[1..]
  {
    var lines := Split(rest, '\n');
    SplitCons('n', rest, '\n');
    var middle := Split(['n'] + rest, '\n');
    assert middle[0] == ['n'] + lines[0] && middle[1..] == lines[1..];
    SplitCons('\\', ['n'] + rest, '\n');
    assert EntrySeparator + rest == ['\\'] + (['n'] + rest);
    assert ['\\'] + (['n'] + lines[0]) == EntrySeparator + lines[0];
  }

  /** The first entry's two lines, then the separator glued to the first line
      of the rest. */
  lemma ExportSplitStep(favorites: seq<Recipe>)
    requires SingleLineFields(favorites) && |favorites| > 1
    requires Split(ExportText(favorites[1..]), '\n') == WrittenLines(favorites[1..])
    ensures Split(ExportText(favorites), '\n') == WrittenLines(favorites)
  {
    var f := favorites[0];
    var rest := ExportText(favorites[1..]);
    var tail := WrittenLines(favorites[1..]);
    assert '\n' !in f.title && '\n' !in f.image.value;
    calc {
      Split(ExportText(favorites), '\n');
      { ExportCons(favorites); }
      Split(Entry(f) + (EntrySeparator + rest), '\n');
      { EntrySplit(f, EntrySeparator + rest); }
      [f.title, f.image.value] + Split(EntrySeparator + rest, '\n');
      { SeparatorSplit(rest); }
      [f.title, f.image.value] + ([EntrySeparator + tail[0]] + tail[1..]);
      { WrittenLinesCons(favorites); }
      WrittenLines(favorites);
    }
  }

  lemma WrittenLinesCons(favorites: seq<Recipe>)
    requires HasImages(favorites) && |favorites| > 1
    ensures var tail := WrittenLines(favorites[1..]);
      WrittenLines(favorites)
        == [favorites[0].title, favorites[0].image.value] + ([EntrySeparator + tail[0]] + tail[1..])
  {
  }

  lemma {:induction false} ExportSplit(favorites: seq<Recipe>)
    requires SingleLineFields(favorites) && favorites != []
    ensures Split(ExportText(favorites), '\n') == WrittenLines(favorites)
    decreases |favorites|
  {
    var f := favorites[0];
    if |favorites| == 1 {
      assert '\n' !in f.title && '\n' !in f.image.value;
      assert ExportText(favorites) == Entry(f) + [];
      EntrySplit(f, []);
    } else {
      ExportSplit(favorites[1..]);
      ExportSplitStep(favorites);
    }
  }

  lemma {:induction false} WrittenLinesAt(favorites: seq<Recipe>)
    requires HasImages(favorites) && favorites != []
    ensures var lines := WrittenLines(favorites);
      && lines[0] == favorites[0].title
      && lines[2 * |favorites|] == []
      && (forall k :: 0 <= k < |favorites| ==> lines[2 * k + 1] == favorites[k].image.value)
      && (forall k :: 1 <= k < |favorites| ==> lines[2 * k] == EntrySeparator + favorites[k].title)
    decreases |favorites|
  {
    if |favorites| > 1 {
      var others := favorites[1..];
      WrittenLinesAt(others);
      var lines, tail := WrittenLines(favorites), WrittenLines(others);
      forall k | 1 <= k < |favorites|
        ensures lines[2 * k + 1] == favorites[k].image.value
        ensures lines[2 * k] == EntrySeparator + favorites[k].title
      {
        assert favorites[k] == others[k - 1];
        assert lines[2 * k + 1] == tail[2 * (k - 1) + 1];
        if k > 1 {
          assert lines[2 * k] == tail[2 * (k - 1)];
        }
      }
    }
  }

  /** The lines of the export as written. With at least one favorite and no
      line breaks inside titles or addresses, the text has `2n + 1` lines:
      the first favorite's title, then each favorite's image address, each
      later favorite's title preceded by the two characters backslash and
      `n`, and an empty last line. */
  lemma ExportLines(favorites: seq<Recipe>)
    requires SingleLineFields(favorites) && favorites != []
    ensures var lines := Split(ExportText(favorites), '\n');
      && |lines| == 2 * |favorites| + 1
      && lines[0] == favorites[0].title
      && lines[2 * |favorites|] == []
      && (forall k :: 0 <= k < |favorites| ==> lines[2 * k + 1] == favorites[k].image.value)
      && (forall k :: 1 <= k < |favorites| ==> lines[2 * k] == EntrySeparator + favorites[k].title)
  {
    ExportSplit(favorites);
    WrittenLinesAt(favorites);
  }

  /** With two or more favorites the third line of the export is the second
      title behind a literal backslash and `n`, so that title does not appear
      on a line of its own. */
  lemma ExportGarblesSecondTitle(favorites: seq<Recipe>)
    requires SingleLineFields(favorites) && |favorites| >= 2
    ensures var lines := Split(ExportText(favorites), '\n');
      |lines| > 2 && lines[2] != favorites[1].title
  {
    ExportLines(favorites);
    var line := Split(ExportText(favorites), '\n')[2];
    assert |line| == |favorites[1].title| + 2;
  }

  // ---------------------------------------------------------------------------
  // The export with the entries separated by a line break.

  /** The export as evidently intended: the same entries, separated by a line
      break instead of the two characters backslash and `n`. */
  function IntendedExportText(favorites: seq<Recipe>): (r: string)
    requires HasImages(favorites)
    ensures |r| == 0 <==> |favorites| == 0
  {
    JoinWith(Entries(favorites), "\n")
  }

  /** The lines of the intended export: title, image address and an empty
      line for each favorite in turn. */
  function IntendedLines(favorites: seq<Recipe>): (r: seq<string>)
    requires HasImages(favorites)
    ensures |r| == 3 * |favorites|
  {
    if favorites == [] then []
    else [favorites[0].title, favorites[0].image.value, []] + IntendedLines(favorites[1..])
  }

  lemma {:induction false} IntendedExportSplit(favorites: seq<Recipe>)
    requires SingleLineFields(favorites) && favorites != []
    ensures Split(IntendedExportText(favorites), '\n') == IntendedLines(favorites)
    decreases |favorites|
  {
    var f := favorites[0];
    if |favorites| == 1 {
      assert '\n' !in f.title && '\n' !in f.image.value;
      assert IntendedExportText(favorites) == Entry(f) + [];
      EntrySplit(f, []);
    } else {
      IntendedExportSplit(favorites[1..]);
      IntendedSplitStep(favorites);
    }
  }

  /** The first entry's two lines, an empty line, then the lines of the rest. */
  lemma IntendedSplitStep(favorites: seq<Recipe>)
    requires SingleLineFields(favorites) && |favorites| > 1
    requires Split(IntendedExportText(favorites[1..]), '\n') == IntendedLines(favorites[1..])
    ensures Split(IntendedExportText(favorites), '\n') == IntendedLines(favorites)
  {
    var f := favorites[0];
    var rest := IntendedExportText(favorites[1..]);
    assert '\n' !in f.title && '\n' !in f.image.value;
    calc {
      Split(IntendedExportText(favorites), '\n');
      { IntendedCons(favorites); }
      Split(Entry(f) + (['\n'] + rest), '\n');
      { EntrySplit(f, ['\n'] + rest); }
      [f.title, f.image.value] + Split(['\n'] + rest, '\n');
      { LineBreakSplit(rest); }
      [f.title, f.image.value] + ([[]] + IntendedLines(favorites[1..]));
      { IntendedLinesCons(favorites); }
      IntendedLines(favorites);
    }
  }

  lemma IntendedLinesCons(favorites: seq<Recipe>)
    requires HasImages(favorites) && favorites != []
    ensures IntendedLines(favorites)
         == [favorites[0].title, favorites[0].image.value] + ([[]] + IntendedLines(favorites[1..]))
  {
  }

  /** A leading line break closes an empty line. */
  lemma LineBreakSplit(rest: string)
    ensures Split(['\n'] + rest, '\n') == [[]] + Split(rest, '\n')
  {
    assert ['\n'] + rest == [] + ['\n'] + rest;
    SplitAppend([], rest, '\n');
  }

  /** Peeling off the first favorite of the intended export: its entry, a
      line break, then the intended export of the others. */
  lemma IntendedCons(favorites: seq<Recipe>)
    requires HasImages(favorites) && |favorites| > 1
    ensures IntendedExportText(favorites) == Entry(favorites[0]) + (['\n'] + IntendedExportText(favorites[1..]))
  {
    assert Entries(favorites)[1..] == Entries(favorites[1..]);
  }

  lemma {:induction false} IntendedLinesAt(favorites: seq<Recipe>)
    requires HasImages(favorites)
    ensures forall k :: 0 <= k < |favorites| ==>
      && IntendedLines(favorites)[3 * k] == favorites[k].title
      && IntendedLines(favorites)[3 * k + 1] == favorites[k].image.value
      && IntendedLines(favorites)[3 * k + 2] == []
  {
    if favorites != [] {
      var others := favorites[1..];
      IntendedLinesAt(others);
      var lines, tail := IntendedLines(favorites), IntendedLines(others);
      forall k | 1 <= k < |favorites|
        ensures lines[3 * k] == favorites[k].title
        ensures lines[3 * k + 1] == favorites[k].image.value
        ensures lines[3 * k + 2] == []
      {
        assert favorites[k] == others[k - 1];
        assert lines[3 * k] == tail[3 * (k - 1)];
        assert lines[3 * k + 1] == tail[3 * (k - 1) + 1];
        assert lines[3 * k + 2] == tail[3 * (k - 1) + 2];
      }
    }
  }

  /** With entries separated by a line break, the lines come in threes: each
      favorite's title, its image address and an empty line, `3n` in all. */
  lemma IntendedExportLines(favorites: seq<Recipe>)
    requires SingleLineFields(favorites) && favorites != []
    ensures var lines := Split(IntendedExportText(favorites), '\n');
      && |lines| == 3 * |favorites|
      && (forall k :: 0 <= k < |favorites| ==>
            lines[3 * k] == favorites[k].title
            && lines[3 * k + 1] == favorites[k].image.value
            && lines[3 * k + 2] == [])
  {
    IntendedExportSplit(favorites);
    IntendedLinesAt(favorites);
  }
}
