/** Step 1 of the collector script (DataSnatcherICEEV.py): choosing the
    catalog of cars and KPIs, either reused from the saved catalog file or
    built from the model's reply to the car-list prompt and a random draw of
    five KPIs. The file is the decoded JSON value (`None` when it is missing
    or not valid JSON); the reply is the decoded API response. */
module CarCatalog {
  import opened Wrappers
  import opened Text
  import opened JsonValues
  import opened Extraction
  import opened DataFiles

  /** The older name of the car list, still accepted when reading. */
  const LegacyCarsKey := "top_bought_cars_US"
  const CarsNeeded: nat := 20
  const KpisPicked: nat := 5

  /** Outcome of reading the saved catalog. */
  datatype CatalogLoad =
    | Reuse(kpis: Json, cars: Json)  // the saved lists are used as they are
    | Refetch                        // a KeyError or a missing/undecodable file: ask the API
    | LoadRaises                     // a TypeError the `except` clause does not catch

  /** The car list the loader looks at: the current key first, the legacy
      key only when the current one is absent. */
  function SavedCars(fields: map<string, Json>): (r: Option<Json>)
    ensures r.Some? <==> CarsKey in fields || LegacyCarsKey in fields
    ensures CarsKey in fields ==> r == Some(fields[CarsKey])
    ensures CarsKey !in fields && LegacyCarsKey in fields ==> r == Some(fields[LegacyCarsKey])
  {
    if CarsKey in fields then Some(fields[CarsKey])
    else if LegacyCarsKey in fields then Some(fields[LegacyCarsKey])
    else None
  }

  /** The `try` block that reads the saved catalog. The saved lists are
      reused only when the KPI key is present, a car-list key is present and
      that list has exactly 20 entries. */
  function LoadCatalog(file: Option<Json>): (r: CatalogLoad)
    ensures r.Reuse? <==>
              && file.Some? && file.value.JObj? && KpisKey in file.value.fields
              && SavedCars(file.value.fields).Some?
              && Len(SavedCars(file.value.fields).value) == Some(CarsNeeded)
    ensures r.Reuse? ==> r.kpis == file.value.fields[KpisKey]
                         && Some(r.cars) == SavedCars(file.value.fields)
                         && Len(r.cars) == Some(CarsNeeded)
    ensures r.LoadRaises? <==>
              && file.Some?
              && (|| !file.value.JObj?
                  || (&& KpisKey in file.value.fields
                      && SavedCars(file.value.fields).Some?
                      && Len(SavedCars(file.value.fields).value).None?))
    ensures file.None? ==> r == Refetch
  {
    match file
    case None => Refetch
    case Some(data) =>
      if !data.JObj? then LoadRaises
      else if KpisKey !in data.fields then Refetch
      else match SavedCars(data.fields)
        case None => Refetch
        case Some(cars) =>
          match Len(cars)
          case None => LoadRaises
          case Some(n) => if n != CarsNeeded then Refetch else Reuse(data.fields[KpisKey], cars)
  }

  /** The legacy key is consulted only when the current key is absent: a
      file holding both uses the current list even when only the legacy
      list has 20 entries. */
  lemma CurrentKeyWins(fields: map<string, Json>)
    requires KpisKey in fields && CarsKey in fields && LegacyCarsKey in fields
    requires Len(fields[CarsKey]) == Some(19) && Len(fields[LegacyCarsKey]) == Some(20)
    ensures LoadCatalog(Some(JObj(fields))) == Refetch
  {
  }

  /** A catalog with 19 cars is not reused: the run asks for a new list. */
  lemma NineteenCarsRefetch(kpis: seq<string>, cars: seq<string>)
    requires |cars| == 19
    ensures LoadCatalog(Some(JObj(map[KpisKey := FromStrings(kpis), CarsKey := FromStrings(cars)]))) == Refetch
  {
    var fields := map[KpisKey := FromStrings(kpis), CarsKey := FromStrings(cars)];
    assert SavedCars(fields) == Some(FromStrings(cars));
  }

  /** One car name per line: split on newlines, strip every line, drop the
      blank ones (`[car.strip() for car in lines if car.strip()]`). */
  function CleanLines(lines: seq<string>): (r: seq<string>)
    ensures |r| <= |lines|
  {
    if |lines| == 0 then []
    else
      var rest := CleanLines(lines[1..]);
      var line := Strip(lines[0]);
      if |line| == 0 then rest else [line] + rest
  }

  /** Every kept line is a non-blank, stripped name. */
  lemma {:induction false} CleanLinesAreNames(lines: seq<string>)
    ensures forall i :: 0 <= i < |CleanLines(lines)| ==> |CleanLines(lines)[i]| > 0 && IsStripped(CleanLines(lines)[i])
  {
    if |lines| > 0 {
      CleanLinesAreNames(lines[1..]);
      var line := Strip(lines[0]);
      if |line| > 0 {
        NamesCons(line, CleanLines(lines[1..]));
      }
    }
  }

  /** A non-blank stripped name in front of such names. */
  lemma NamesCons(line: string, rest: seq<string>)
    requires |line| > 0 && IsStripped(line)
    requires forall i :: 0 <= i < |rest| ==> |rest[i]| > 0 && IsStripped(rest[i])
    ensures forall i :: 0 <= i < |[line] + rest| ==> |([line] + rest)[i]| > 0 && IsStripped(([line] + rest)[i])
  {
  }

  /** Cleaning works line by line: the lines of `a + b` clean to the
      cleaned lines of `a` followed by those of `b`. */
  lemma {:induction false} CleanLinesAppend(a: seq<string>, b: seq<string>)
    ensures CleanLines(a + b) == CleanLines(a) + CleanLines(b)
    decreases |a|
  {
    if |a| == 0 {
      assert a + b == b;
    } else {
      var ab := a + b;
      assert ab[0] == a[0];
      assert ab[1..] == a[1..] + b;
      CleanLinesAppend(a[1..], b);
    }
  }

  /** A single line is kept, stripped, exactly when it is not blank. */
  lemma CleanLinesOne(line: string)
    ensures CleanLines([line]) == if |Strip(line)| == 0 then [] else [Strip(line)]
  {
    assert [line][1..] == [];
  }

  /** Lines of whitespace only are all dropped. */
  lemma {:induction false} CleanLinesBlank(lines: seq<string>)
    requires forall i :: 0 <= i < |lines| ==> AllSpace(lines[i])
    ensures CleanLines(lines) == []
    decreases |lines|
  {
    if |lines| > 0 {
      StripAllSpace(lines[0]);
      CleanLinesBlank(lines[1..]);
    }
  }

  /** Whitespace-only lines in front change nothing after cleaning. */
  lemma BlankLinesBefore(front: seq<string>, rest: seq<string>)
    requires forall i :: 0 <= i < |front| ==> AllSpace(front[i])
    ensures CleanLines(front + rest) == CleanLines(rest)
  {
    CleanLinesAppend(front, rest);
    CleanLinesBlank(front);
    var r := CleanLines(rest);
    assert [] + r == r;
  }

  /** Whitespace-only lines after change nothing after cleaning. */
  lemma BlankLinesAfter(rest: seq<string>, back: seq<string>)
    requires forall i :: 0 <= i < |back| ==> AllSpace(back[i])
    ensures CleanLines(rest + back) == CleanLines(rest)
  {
    CleanLinesAppend(rest, back);
    CleanLinesBlank(back);
    var r := CleanLines(rest);
    assert r + [] == r;
  }

  /** A first line that strips like another cleans like it. */
  lemma SameFirstLine(a: string, b: string, back: seq<string>)
    requires Strip(a) == Strip(b)
    ensures CleanLines([a] + back) == CleanLines([b] + back)
  {
    assert ([a] + back)[1..] == back;
    assert ([b] + back)[1..] == back;
  }

  /** A last line that strips like another cleans like it. */
  lemma SameLastLine(front: seq<string>, a: string, b: string)
    requires Strip(a) == Strip(b)
    ensures CleanLines(front + [a]) == CleanLines(front + [b])
  {
    CleanLinesAppend(front, [a]);
    CleanLinesAppend(front, [b]);
    CleanLinesOne(a);
    CleanLinesOne(b);
  }

  /** Trailing whitespace on the last line changes nothing after cleaning. */
  lemma SpacesOnLastLine(front: seq<string>, last: string, w: string)
    requires AllSpace(w)
    ensures CleanLines(front + [last + w]) == CleanLines(front + [last])
  {
    StripSpacesAfter(last, w);
    SameLastLine(front, last + w, last);
  }

  /** Leading whitespace on the first line changes nothing after cleaning. */
  lemma SpacesOnFirstLine(w: string, first: string, back: seq<string>)
    requires AllSpace(w)
    ensures CleanLines([w + first] + back) == CleanLines([first] + back)
  {
    StripSpacesBefore(w, first);
    SameFirstLine(w + first, first, back);
  }

  /** The front of whitespace-only pieces is whitespace only. */
  lemma FrontAllSpace(xs: seq<string>, front: seq<string>)
    requires |xs| >= 1 && front == xs[..|xs| - 1]
    requires forall i :: 0 <= i < |xs| ==> AllSpace(xs[i])
    ensures forall i :: 0 <= i < |front| ==> AllSpace(front[i])
  {
  }

  /** A non-empty sequence is its first element followed by the rest. */
  lemma FirstSplit<T>(xs: seq<T>)
    requires |xs| >= 1
    ensures [xs[0]] + xs[1..] == xs
  {
  }

  /** A non-empty sequence is its front followed by its last element. */
  lemma LastSplit<T>(xs: seq<T>)
    requires |xs| >= 1
    ensures xs[..|xs| - 1] + [xs[|xs| - 1]] == xs
  {
  }

  /** Glue regrouped around the joined line. */
  lemma GlueParts(xs: seq<string>, ys: seq<string>)
    requires |xs| >= 1 && |ys| >= 1
    ensures Glue(xs, ys) == xs[..|xs| - 1] + ([xs[|xs| - 1] + ys[0]] + ys[1..])
    ensures Glue(xs, ys) == (xs[..|xs| - 1] + [xs[|xs| - 1] + ys[0]]) + ys[1..]
  {
  }

  /** Whitespace-only pieces in front, the last of them running into the
      first line of `ys`, change nothing after cleaning. */
  lemma GlueAfterBlank(xs: seq<string>, ys: seq<string>)
    requires |xs| >= 1 && |ys| >= 1
    requires forall i :: 0 <= i < |xs| ==> AllSpace(xs[i])
    ensures CleanLines(Glue(xs, ys)) == CleanLines(ys)
  {
    GlueParts(xs, ys);
    var front, w := xs[..|xs| - 1], xs[|xs| - 1];
    FrontAllSpace(xs, front);
    BlankLinesBefore(front, [w + ys[0]] + ys[1..]);
    SpacesOnFirstLine(w, ys[0], ys[1..]);
    FirstSplit(ys);
  }

  /** Whitespace-only pieces after `xs`, the first of them running into the
      last line of `xs`, change nothing after cleaning. */
  lemma GlueBeforeBlank(xs: seq<string>, zs: seq<string>)
    requires |xs| >= 1 && |zs| >= 1
    requires forall i :: 0 <= i < |zs| ==> AllSpace(zs[i])
    ensures CleanLines(Glue(xs, zs)) == CleanLines(xs)
  {
    GlueParts(xs, zs);
    var front, last, back := xs[..|xs| - 1], xs[|xs| - 1], zs[1..];
    assert forall i :: 0 <= i < |back| ==> AllSpace(back[i]) by {
      forall i | 0 <= i < |back| ensures AllSpace(back[i]) {
        assert back[i] == zs[i + 1];
      }
    }
    BlankLinesAfter(front + [last + zs[0]], back);
    SpacesOnLastLine(front, last, zs[0]);
    LastSplit(xs);
  }

  /** Whitespace in front of a text changes none of its cleaned lines. */
  lemma SplitBlankFront(p: string, t: string)
    requires AllSpace(p)
    ensures CleanLines(Split(p + t, '\n')) == CleanLines(Split(t, '\n'))
  {
    SplitConcat(p, t, '\n');
    SplitAllSpace(p, '\n');
    GlueAfterBlank(Split(p, '\n'), Split(t, '\n'));
  }

  /** Whitespace after a text changes none of its cleaned lines. */
  lemma SplitBlankBack(t: string, q: string)
    requires AllSpace(q)
    ensures CleanLines(Split(t + q, '\n')) == CleanLines(Split(t, '\n'))
  {
    SplitConcat(t, q, '\n');
    SplitAllSpace(q, '\n');
    GlueBeforeBlank(Split(t, '\n'), Split(q, '\n'));
  }

  /** The outer `strip()` of the reply changes nothing: the car list is the
      cleaned lines of the whole reply. */
  lemma CarLinesAreCleanLines(content: string)
    ensures CarLines(content) == CleanLines(Split(content, '\n'))
  {
    var p, q := StripFrame(content);
    SplitBlankFront(p, Strip(content) + q);
    SplitBlankBack(Strip(content), q);
  }

  /** Lines written one per line parse back to their cleaned form: padded
      names come back stripped and blank lines vanish. */
  lemma CarLinesOfLines(lines: seq<string>)
    requires |lines| >= 1
    requires forall i :: 0 <= i < |lines| ==> '\n' !in lines[i]
    ensures CarLines(Join(lines, '\n')) == CleanLines(lines)
  {
    CarLinesAreCleanLines(Join(lines, '\n'));
    SplitJoin(lines, '\n');
  }

  // An example reply with padded names, a blank line and a trailing newline.

  lemma CamryStrips()
    ensures Strip("  Camry LE ") == "Camry LE"
  {
    var w1, name, w2 := "  ", "Camry LE", " ";
    assert AllSpace(w1) by { assert w1[0] == ' ' && w1[1] == ' '; }
    assert AllSpace(w2) by { assert w2[0] == ' '; }
    assert IsStripped(name) by { assert name[0] == 'C' && name[|name| - 1] == 'E'; }
    assert w1 + name + w2 == "  Camry LE ";
    StripPadded(w1, name, w2);
  }

  lemma ModelStrips()
    ensures Strip(" Model 3") == "Model 3"
  {
    var w1, name, w2 := " ", "Model 3", "";
    assert AllSpace(w1) by { assert w1[0] == ' '; }
    assert IsStripped(name) by { assert name[0] == 'M' && name[|name| - 1] == '3'; }
    assert w1 + name + w2 == " Model 3";
    StripPadded(w1, name, w2);
  }

  /** A blank first line is dropped. */
  lemma BlankHead(line: string, rest: seq<string>)
    requires |Strip(line)| == 0
    ensures CleanLines([line] + rest) == CleanLines(rest)
  {
    assert ([line] + rest)[1..] == rest;
  }

  /** A non-blank first line is kept, stripped, in front. */
  lemma KeptHead(line: string, rest: seq<string>)
    requires |Strip(line)| > 0
    ensures CleanLines([line] + rest) == [Strip(line)] + CleanLines(rest)
  {
    assert ([line] + rest)[1..] == rest;
  }

  /** Two lines, the second blank. */
  lemma CleanLinesTwo(a: string, b: string)
    requires |Strip(a)| > 0 && |Strip(b)| == 0
    ensures CleanLines([a, b]) == [Strip(a)]
  {
    CleanLinesOne(b);
    KeptHead(a, [b]);
  }

  /** Four lines, the second and the fourth blank. */
  lemma CleanLinesFour(a: string, b: string, c: string, d: string)
    requires |Strip(a)| > 0 && |Strip(b)| == 0 && |Strip(c)| > 0 && |Strip(d)| == 0
    ensures CleanLines([a, b, c, d]) == [Strip(a), Strip(c)]
  {
    CleanLinesTwo(a, b);
    CleanLinesTwo(c, d);
    assert [a, b, c, d] == [a, b] + [c, d];
    CleanLinesAppend([a, b], [c, d]);
  }

  lemma PaddedLinesClean()
    ensures CleanLines(["  Camry LE ", "", " Model 3", ""]) == ["Camry LE", "Model 3"]
  {
    CamryStrips();
    ModelStrips();
    StripStripped("");
    CleanLinesFour("  Camry LE ", "", " Model 3", "");
  }

  lemma PaddedLinesJoin()
    ensures Join(["  Camry LE ", "", " Model 3", ""], '\n') == "  Camry LE \n\n Model 3\n"
  {
    var lines := ["  Camry LE ", "", " Model 3", ""];
    assert lines[1..] == ["", " Model 3", ""];
    assert lines[1..][1..] == [" Model 3", ""];
    assert lines[1..][1..][1..] == [""];
  }

  lemma PaddedLinesHaveNoNewline(lines: seq<string>)
    requires lines == ["  Camry LE ", "", " Model 3", ""]
    ensures forall i :: 0 <= i < |lines| ==> '\n' !in lines[i]
  {
    assert '\n' !in lines[0];
    assert '\n' !in lines[2];
  }

  /** Padded names come back stripped, and the blank line and the empty
      piece after the final newline are dropped. */
  lemma PaddedReplyParses()
    ensures CarLines("  Camry LE \n\n Model 3\n") == ["Camry LE", "Model 3"]
  {
    var lines := ["  Camry LE ", "", " Model 3", ""];
    PaddedLinesJoin();
    PaddedLinesClean();
    PaddedLinesHaveNoNewline(lines);
    CarLinesOfLines(lines);
  }

  /** The car list read from the reply text (`content.strip().split('\n')`). */
  function CarLines(content: string): (r: seq<string>)
    ensures forall i :: 0 <= i < |r| ==> |r[i]| > 0 && IsStripped(r[i]) && '\n' !in r[i]
  {
    var lines := Split(Strip(content), '\n');
    var r := CleanLines(lines);
    CleanLinesAreNames(lines);
    CleanLinesKeepOut(lines, '\n');
    r
  }

  /** Cleaning lines that hold no `c` gives names that hold no `c`. */
  lemma {:induction false} CleanLinesKeepOut(lines: seq<string>, c: char)
    requires forall j :: 0 <= j < |lines| ==> c !in lines[j]
    ensures forall i :: 0 <= i < |CleanLines(lines)| ==> c !in CleanLines(lines)[i]
  {
    if |lines| > 0 {
      CleanLinesKeepOut(lines[1..], c);
      StripKeepsOut(lines[0], c);
    }
  }

  /** Stripping adds no character. */
  lemma StripKeepsOut(s: string, c: char)
    requires c !in s
    ensures c !in Strip(s)
  {
    var lo, r := StripStart(s), Strip(s);
    SliceKeepsOut(s, lo, lo + |r|, c);
  }

  lemma SliceKeepsOut(s: string, lo: nat, hi: nat, c: char)
    requires lo <= hi <= |s| && c !in s
    ensures c !in s[lo..hi]
  {
    forall i | 0 <= i < hi - lo
      ensures s[lo..hi][i] != c
    {
      assert s[lo..hi][i] == s[lo + i];
    }
  }

  /** Names that are non-empty, stripped and newline-free survive cleaning. */
  lemma {:induction false} CleanLinesOfNames(names: seq<string>)
    requires forall i :: 0 <= i < |names| ==> |names[i]| > 0 && IsStripped(names[i])
    ensures CleanLines(names) == names
  {
    if |names| > 0 {
      CleanLinesOfNames(names[1..]);
      StripStripped(names[0]);
      assert names == [names[0]] + names[1..];
    }
  }

  /** Round trip: writing car names one per line and reading the reply back
      gives the same list. */
  lemma CarLinesRoundTrip(names: seq<string>)
    requires |names| >= 1
    requires forall i :: 0 <= i < |names| ==> |names[i]| > 0 && IsStripped(names[i]) && '\n' !in names[i]
    ensures CarLines(Join(names, '\n')) == names
  {
    var text := Join(names, '\n');
    JoinStripped(names);
    StripStripped(text);
    SplitJoin(names, '\n');
    CleanLinesOfNames(names);
  }

  /** Joining non-empty stripped names gives a stripped text. */
  lemma {:induction false} JoinStripped(names: seq<string>)
    requires |names| >= 1
    requires forall i :: 0 <= i < |names| ==> |names[i]| > 0 && IsStripped(names[i])
    ensures |Join(names, '\n')| > 0 && IsStripped(Join(names, '\n'))
    ensures Join(names, '\n')[0] == names[0][0]
    ensures Join(names, '\n')[|Join(names, '\n')| - 1] == names[|names| - 1][|names[|names| - 1]| - 1]
  {
    if |names| > 1 {
      JoinStripped(names[1..]);
    }
  }

  /** Asking the API for a new car list: the first choice's content split
      into lines must hold exactly 20 names, otherwise the run exits with
      status 1. */
  function FetchCars(response: Option<Json>): (r: Result<seq<string>>)
    ensures r.Success? ==> |r.value| == CarsNeeded
    ensures r.Success? <==> response.Some? && WellFormedReply(response.value)
                            && |CarLines(ReplyText(response.value))| == CarsNeeded
    ensures r.Success? ==> r.value == CarLines(ReplyText(response.value))
  {
    match FirstChoiceContent(response)
    case NoReply => Failure("no reply")
    case Raises => Failure("TypeError")
    case Content(text) =>
      StripIdempotent(text);
      var cars := CarLines(text);
      if |cars| != CarsNeeded then Failure("not 20 cars")
      else Success(cars)
  }

  /** The nine candidate KPIs, in the order of the source. */
  function AllKpis(): seq<string> {
    [ "Fuel Efficiency (MPG)", "Acceleration (0-60 mph)", "Range (miles)",
      "Maintenance Cost", "Cost Over Ownership", "Passenger Capacity",
      "Cargo Space (cu ft)", "Towing Capacity (lbs)", "Horsepower" ]
  }

  function ExcludedKpis(): seq<string> {
    ["Reliability Rating", "Safety Rating", "Resale Value"]
  }

  /** `[kpi for kpi in all_kpis if kpi not in excluded_kpis]`. */
  function Without(xs: seq<string>, drop: seq<string>): (r: seq<string>)
    ensures forall i :: 0 <= i < |r| ==> r[i] in xs && r[i] !in drop
    ensures forall x :: x in xs && x !in drop ==> x in r
  {
    if |xs| == 0 then []
    else (if xs[0] in drop then [] else [xs[0]]) + Without(xs[1..], drop)
  }

  function AvailableKpis(): seq<string> {
    Without(AllKpis(), ExcludedKpis())
  }

  /** None of the excluded KPIs is in the pool, so the exclusion removes
      nothing: all nine candidates stay available. */
  lemma ExclusionRemovesNothing()
    ensures AvailableKpis() == AllKpis()
    ensures |AvailableKpis()| == 9 && Distinct(AvailableKpis())
  {
    NoCandidateExcluded();
    WithoutNothing(AllKpis(), ExcludedKpis());
    PoolDistinct();
  }

  /** No candidate is one of the excluded names. */
  lemma NoCandidateExcluded()
    ensures forall i :: 0 <= i < |AllKpis()| ==> AllKpis()[i] !in ExcludedKpis()
  {
    var all, drop := AllKpis(), ExcludedKpis();
    assert |drop[0]| == 18 && |drop[1]| == 13 && |drop[2]| == 12;
    assert drop[0][0] == 'R' && drop[1][0] == 'S';
    forall i | 0 <= i < |all|
      ensures all[i] !in drop
    {
      assert all[i] != drop[0] && all[i] != drop[1] && all[i] != drop[2];
    }
  }

  /** The nine candidates are pairwise different. */
  lemma PoolDistinct()
    ensures Distinct(AllKpis())
  {
  }

  lemma {:induction false} WithoutNothing(xs: seq<string>, drop: seq<string>)
    requires forall i :: 0 <= i < |xs| ==> xs[i] !in drop
    ensures Without(xs, drop) == xs
  {
    if |xs| > 0 {
      WithoutNothing(xs[1..], drop);
      assert xs == [xs[0]] + xs[1..];
    }
  }

  /** A `random.sample(pool, 5)` drawn as five distinct positions of the pool. */
  predicate ValidPicks(picks: seq<nat>) {
    |picks| == KpisPicked && Distinct(picks)
    && forall i :: 0 <= i < |picks| ==> picks[i] < 9
  }

  /** The elements of `pool` at the positions `picks`, in order. */
  function Pick(pool: seq<string>, picks: seq<nat>): (r: seq<string>)
    requires forall i :: 0 <= i < |picks| ==> picks[i] < |pool|
    ensures |r| == |picks|
    ensures forall i :: 0 <= i < |picks| ==> r[i] == pool[picks[i]]
  {
    seq(|picks|, i requires 0 <= i < |picks| => pool[picks[i]])
  }

  /** Distinct positions of a list without repeats pick distinct elements. */
  lemma PickDistinct(pool: seq<string>, picks: seq<nat>)
    requires Distinct(pool) && Distinct(picks)
    requires forall i :: 0 <= i < |picks| ==> picks[i] < |pool|
    ensures Distinct(Pick(pool, picks))
  {
  }

  /** The pool is the nine candidates, pairwise different. */
  lemma PoolFacts(pool: seq<string>)
    requires pool == AvailableKpis()
    ensures |pool| == 9 && Distinct(pool)
  {
    ExclusionRemovesNothing();
  }

  /** The five KPIs at the drawn positions of the pool, all different. */
  function PickKpis(picks: seq<nat>): (kpis: seq<string>)
    requires ValidPicks(picks)
    ensures |kpis| == KpisPicked && Distinct(kpis)
    ensures forall i :: 0 <= i < |kpis| ==>
              picks[i] < |AvailableKpis()| && kpis[i] == AvailableKpis()[picks[i]]
  {
    var pool := AvailableKpis();
    PoolFacts(pool);
    PickDistinct(pool, picks);
    Pick(pool, picks)
  }

  /** The catalog object the fetch path writes back to disk. */
  function NewCatalogFile(cars: seq<string>, kpis: seq<string>): Json {
    JObj(map[CarsKey := FromStrings(cars), KpisKey := FromStrings(kpis)])
  }

  /** Round trip: a catalog written by the fetch path is reused unchanged
      when read back by the next run. */
  lemma CatalogRoundTrip(cars: seq<string>, kpis: seq<string>)
    requires |cars| == CarsNeeded
    ensures LoadCatalog(Some(NewCatalogFile(cars, kpis))) == Reuse(FromStrings(kpis), FromStrings(cars))
    ensures Strings(FromStrings(cars)) == cars && Strings(FromStrings(kpis)) == kpis
  {
    var fields := NewCatalogFile(cars, kpis).fields;
    assert fields[CarsKey] == FromStrings(cars);
    assert fields[KpisKey] == FromStrings(kpis);
  }

  datatype Catalog = Catalog(cars: seq<string>, kpis: seq<string>)

  /** What `for x in j` walks over when the script iterates a saved list:
      the characters of a string, one per entry, or the strings of a list of
      strings. Numbers, booleans and `null` are not iterable and raise
      `TypeError`. Lists holding other values and objects are not followed
      by this model and fail as well. */
  function Entries(j: Json): (r: Result<seq<string>>)
    ensures r.Success? <==> j.JStr? || IsStringList(j)
    ensures r.Success? ==> Len(j) == Some(|r.value|)
    ensures j.JStr? ==> r.Success? && forall i :: 0 <= i < |j.s| ==> r.value[i] == [j.s[i]]
    ensures IsStringList(j) ==> r == Success(Strings(j))
    ensures Len(j).None? ==> r == Failure("TypeError")
  {
    match j
    case JStr(s) => Success(seq(|s|, i requires 0 <= i < |s| => [s[i]]))
    case JArr(_) => if IsStringList(j) then Success(Strings(j)) else Failure("list entries other than strings")
    case JObj(_) => Failure("keys of an object")
    case _ => Failure("TypeError")
  }

  /** The fetch path: a new car list from the reply and five drawn KPIs. */
  function FetchCatalog(response: Option<Json>, picks: seq<nat>): (r: Result<Catalog>)
    requires ValidPicks(picks)
    ensures r.Success? <==> FetchCars(response).Success?
    ensures r.Success? ==> r.value == Catalog(FetchCars(response).value, PickKpis(picks))
    ensures r.Success? ==> |r.value.cars| == CarsNeeded && |r.value.kpis| == KpisPicked
  {
    match FetchCars(response)
    case Failure(e) => Failure(e)
    case Success(cars) => Success(Catalog(cars, PickKpis(picks)))
  }

  /** The reuse path: the saved lists read as they are; writing them back
      gives the same JSON lists. */
  function ReusedCatalog(kpis: Json, cars: Json): (r: Catalog)
    requires IsStringList(kpis) && IsStringList(cars)
    ensures FromStrings(r.cars) == cars && FromStrings(r.kpis) == kpis
    ensures |r.cars| == |cars.items| && |r.kpis| == |kpis.items|
  {
    Catalog(Strings(cars), Strings(kpis))
  }
}
