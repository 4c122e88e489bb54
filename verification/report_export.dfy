/**
 * The reports page's choice of group and the name of the file its export
 * buttons download: the group name with every run of white space replaced
 * by an underscore, then "_report." and the format's extension.
 */
module ReportExport {
  import opened Optional
  import opened JsText

  /** The three export buttons. */
  datatype ExportFormat = Csv | Excel | Pdf
  {
    /** The literal the button passes to the export handler. */
    function Name(): string
    {
      match this
      case Csv => "csv"
      case Excel => "excel"
      case Pdf => "pdf"
    }
  }

  /** The file extension: the format's own name, except that Excel files end in "xlsx". */
  function Extension(fmt: ExportFormat): (r: string)
    ensures fmt != Excel ==> r == fmt.Name()
    ensures fmt == Excel ==> r != fmt.Name() && r == "xlsx"
    ensures |r| > 0 && HasNoSpace(r)
  {
    if fmt == Excel then "xlsx" else fmt.Name()
  }

  /** The format a downloaded file's extension stands for, if any. */
  function FormatOfExtension(ext: string): (r: Option<ExportFormat>)
    ensures r.Some? <==> ext in {"csv", "xlsx", "pdf"}
  {
    if ext == "csv" then Some(Csv)
    else if ext == "xlsx" then Some(Excel)
    else if ext == "pdf" then Some(Pdf)
    else None
  }

  /** The extension identifies the format: reading it back gives the format that
      produced it, and every recognised extension is the one of its format. */
  lemma ExtensionRoundTrip(fmt: ExportFormat, ext: string)
    ensures FormatOfExtension(Extension(fmt)) == Some(fmt)
    ensures FormatOfExtension(ext) == Some(fmt) ==> Extension(fmt) == ext
  {
  }

  /** `s.replace(/\s+/g, "_")`: every maximal run of white space becomes one underscore. */
  function Underscored(s: string): (r: string)
    ensures HasNoSpace(r)
    ensures |r| <= |s|
    decreases |s|
  {
    if s == [] then []
    else if IsSpace(s[0]) then "_" + Underscored(TrimStart(s[1..]))
    else [s[0]] + Underscored(s[1..])
  }

  /** A string without white space is left as it is. */
  lemma {:induction false} UnderscoredNoSpace(s: string)
    requires HasNoSpace(s)
    ensures Underscored(s) == s
  {
    if s != [] {
      UnderscoredNoSpace(s[1..]);
    }
  }

  /** A non-empty run of white space on its own becomes a single underscore. */
  lemma UnderscoredRun(w: string)
    requires |w| > 0 && IsBlank(w)
    ensures Underscored(w) == "_"
  {
    TrimStartBlankPrefix(w[1..], []);
    assert w[1..] + [] == w[1..];
  }

  /** Replacement works piece by piece when the cut is after a non-space. */
  lemma {:induction false} UnderscoredConcat(a: string, t: string)
    requires a == [] || !IsSpace(a[|a| - 1])
    ensures Underscored(a + t) == Underscored(a) + Underscored(t)
    decreases |a|
  {
    if a == [] {
      assert a + t == t;
    } else if !IsSpace(a[0]) {
      assert Underscored(a + t) == Underscored(a) + Underscored(t) by {
        UnderscoredHead(a, t);
        UnderscoredConcat(a[1..], t);
        ConcatAssoc([a[0]], Underscored(a[1..]), Underscored(t));
      }
    } else {
      assert Underscored(a + t) == Underscored(a) + Underscored(t) by {
        var y := SkipLeadingRun(a, t);
        UnderscoredHead(a, t);
        UnderscoredConcat(y, t);
        ConcatAssoc("_", Underscored(y), Underscored(t));
      }
    }
  }

  /** After a leading space, trimming the rest of `a` stops inside `a` and
      leaves a shorter string that still ends in a non-space. */
  lemma SkipLeadingRun(a: string, t: string) returns (y: string)
    requires a != [] && IsSpace(a[0]) && !IsSpace(a[|a| - 1])
    ensures y == TrimStart(a[1..]) && |y| < |a|
    ensures y != [] && !IsSpace(y[|y| - 1])
    ensures TrimStart(a[1..] + t) == y + t
  {
    var x := a[1..];
    assert !IsBlank(x) by {
      assert x[|x| - 1] == a[|a| - 1];
    }
    TrimStartConcat(x, t);
    y := TrimStart(x);
    assert y != [] by {
      assert x[..|x|] == x;
    }
    assert y[|y| - 1] == x[|x| - 1] by {
      assert y == x[|x| - |y|..];
    }
  }

  /** Concatenation is associative. */
  lemma ConcatAssoc(a: string, b: string, c: string)
    ensures a + (b + c) == (a + b) + c
  {
  }

  /** One step of the replacement on `a` and on `a + t`, for a non-empty `a`. */
  lemma UnderscoredHead(a: string, t: string)
    requires a != []
    ensures !IsSpace(a[0]) ==> Underscored(a) == [a[0]] + Underscored(a[1..])
    ensures !IsSpace(a[0]) ==> Underscored(a + t) == [a[0]] + Underscored(a[1..] + t)
    ensures IsSpace(a[0]) ==> Underscored(a) == "_" + Underscored(TrimStart(a[1..]))
    ensures IsSpace(a[0]) ==> Underscored(a + t) == "_" + Underscored(TrimStart(a[1..] + t))
  {
    assert (a + t)[0] == a[0];
    assert (a + t)[1..] == a[1..] + t;
  }

  /** A string that opens with a white-space run: the run becomes one underscore. */
  lemma UnderscoredLeadingRun(w: string, b: string)
    requires |w| > 0 && IsBlank(w)
    requires b == [] || !IsSpace(b[0])
    ensures Underscored(w + b) == "_" + Underscored(b)
  {
    var s := w + b;
    assert s[0] == w[0];
    assert s[1..] == w[1..] + b;
    TrimStartBlankPrefix(w[1..], b);
  }

  /** The regular-expression replacement, stated run by run: a white-space run
      between two non-space neighbours becomes exactly one underscore and
      nothing else changes. */
  lemma UnderscoredSplit(a: string, w: string, b: string)
    requires a == [] || !IsSpace(a[|a| - 1])
    requires |w| > 0 && IsBlank(w)
    requires b == [] || !IsSpace(b[0])
    ensures Underscored(a + (w + b)) == Underscored(a) + ("_" + Underscored(b))
  {
    UnderscoredConcat(a, w + b);
    UnderscoredLeadingRun(w, b);
  }

  /** Words separated by single spaces are joined by underscores instead. */
  lemma UnderscoredWords(x: string, y: string, z: string)
    requires |x| > 0 && |y| > 0 && |z| > 0
    requires HasNoSpace(x) && HasNoSpace(y) && HasNoSpace(z)
    ensures Underscored(x + (" " + (y + (" " + z)))) == x + ("_" + (y + ("_" + z)))
  {
    var yz := y + (" " + z);
    UnderscoredTwoWords(y, z);
    assert yz[0] == y[0];
    assert !IsSpace(x[|x| - 1]);
    UnderscoredSplit(x, " ", yz);
    UnderscoredNoSpace(x);
  }

  /** Two words separated by a single space are joined by an underscore instead. */
  lemma UnderscoredTwoWords(y: string, z: string)
    requires |y| > 0 && |z| > 0
    requires HasNoSpace(y) && HasNoSpace(z)
    ensures Underscored(y + (" " + z)) == y + ("_" + z)
  {
    assert !IsSpace(y[|y| - 1]) && !IsSpace(z[0]);
    UnderscoredSplit(y, " ", z);
    UnderscoredNoSpace(y);
    UnderscoredNoSpace(z);
  }

  /** Replacing twice changes nothing more. */
  lemma UnderscoredIdempotent(s: string)
    ensures Underscored(Underscored(s)) == Underscored(s)
  {
    UnderscoredNoSpace(Underscored(s));
  }

  /** The download name `${name.replace(/\s+/g, "_")}_report.${extension}`. */
  function ExportFilename(groupName: string, fmt: ExportFormat): (r: string)
    ensures HasNoSpace(r)
    ensures |r| == |Underscored(groupName)| + 8 + |Extension(fmt)|
    ensures r[..|Underscored(groupName)|] == Underscored(groupName)
    ensures r[|Underscored(groupName)|..|Underscored(groupName)| + 8] == "_report."
    ensures r[|r| - |Extension(fmt)|..] == Extension(fmt)
  {
    var stem := Underscored(groupName);
    var tail := "_report." + Extension(fmt);
    ReportSuffixNoSpace(fmt);
    NoSpaceConcat(stem, tail);
    var r := stem + tail;
    assert r[..|stem|] == stem;
    assert r[|stem|..|stem| + 8] == "_report.";
    assert r[|r| - |Extension(fmt)|..] == Extension(fmt);
    r
  }

  /** What follows the group's part of the name holds no white space. */
  lemma ReportSuffixNoSpace(fmt: ExportFormat)
    ensures HasNoSpace("_report." + Extension(fmt))
  {
    assert HasNoSpace("_report.");
    NoSpaceConcat("_report.", Extension(fmt));
  }

  /** The three buttons never download under the same name. */
  lemma FilenamesDistinctPerFormat(groupName: string, f: ExportFormat, g: ExportFormat)
    requires f != g
    ensures ExportFilename(groupName, f) != ExportFilename(groupName, g)
  {
  }

  /** The name alone does not identify the file: a name whose words are
      separated by a run of white space and the same words joined by an
      underscore download under the same file name. */
  lemma FilenameCollision(x: string, w: string, z: string, fmt: ExportFormat)
    requires |x| > 0 && |z| > 0 && HasNoSpace(x) && HasNoSpace(z)
    requires |w| > 0 && IsBlank(w)
    ensures ExportFilename(x + (w + z), fmt) == ExportFilename(x + ("_" + z), fmt)
  {
    UnderscoredSplit(x, w, z);
    UnderscoredNoSpace(x);
    UnderscoredNoSpace(z);
    assert HasNoSpace(x + ("_" + z)) by {
      var v := x + ("_" + z);
      forall i | 0 <= i < |v| ensures !IsSpace(v[i]) {
        if i < |x| { assert v[i] == x[i]; }
        else if i > |x| { assert v[i] == z[i - |x| - 1]; }
      }
    }
    UnderscoredNoSpace(x + ("_" + z));
  }

  /** A row of the page's group summaries. */
  datatype GroupSummary = GroupSummary(
    id: string,
    name: string,
    contributionAmount: int,
    frequency: string,
    totalCycles: int,
    completedCycles: int,
    members: int,
    totalCollected: int,
    averagePaymentTime: real,
    onTimePayments: int,
    latePayments: int,
    missedPayments: int)

  const GroupsData: seq<GroupSummary> := [
    GroupSummary("1", "Lagos Market Traders", 50000, "Weekly", 20, 15, 4, 3000000, 1.2, 85, 10, 5),
    GroupSummary("2", "Tech Professionals", 100000, "Monthly", 12, 5, 8, 4000000, 0.8, 92, 6, 2),
    GroupSummary("3", "University Friends", 25000, "Weekly", 10, 9, 6, 1350000, 2.1, 78, 15, 7)
  ]

  /** The group the page shows on first render. */
  const InitialSelection: string := "1"

  /** `groups.find(g => g.id === id)`: the first group with that id, if any. */
  function FindGroup(groups: seq<GroupSummary>, id: string): (r: Option<GroupSummary>)
    ensures r.Some? <==> exists i :: 0 <= i < |groups| && groups[i].id == id
    ensures r.Some? ==> r.value.id == id && r.value in groups
    ensures r.Some? ==> forall i :: 0 <= i < |groups| && groups[i] != r.value ==>
      groups[i].id != id || exists j :: 0 <= j < i && groups[j] == r.value
  {
    if groups == [] then None
    else if groups[0].id == id then Some(groups[0])
    else
      var r := FindGroup(groups[1..], id);
      assert forall i :: 1 <= i < |groups| ==> groups[i] == groups[1..][i - 1];
      r
  }

  /** `groups.find(g => g.id === selected) || groups[0]`: the selected group,
      falling back on the first one; `undefined` only when there are no groups. */
  function CurrentGroup(groups: seq<GroupSummary>, selected: string): (r: Option<GroupSummary>)
    ensures r.Some? <==> |groups| > 0
    ensures (exists i :: 0 <= i < |groups| && groups[i].id == selected) ==>
      r.Some? && r.value.id == selected
    ensures (forall i :: 0 <= i < |groups| ==> groups[i].id != selected) && |groups| > 0 ==>
      r == Some(groups[0])
  {
    match FindGroup(groups, selected)
    case Some(g) => Some(g)
    case None => if |groups| == 0 then None else Some(groups[0])
  }

  /** The first matching group is the one chosen, whatever comes after it. */
  lemma {:induction false} CurrentGroupIsFirstMatch(groups: seq<GroupSummary>, selected: string, k: nat)
    requires k < |groups| && groups[k].id == selected
    requires forall j :: 0 <= j < k ==> groups[j].id != selected
    ensures CurrentGroup(groups, selected) == Some(groups[k])
    decreases k
  {
    if k > 0 {
      assert groups[1..][k - 1] == groups[k];
      CurrentGroupIsFirstMatch(groups[1..], selected, k - 1);
      assert FindGroup(groups, selected) == FindGroup(groups[1..], selected);
    }
  }

  /** The page's own data: the initial selection shows the first group and an
      unknown selection falls back on it. */
  lemma SampleSelection()
    ensures CurrentGroup(GroupsData, InitialSelection) == Some(GroupsData[0])
    ensures CurrentGroup(GroupsData, "2") == Some(GroupsData[1])
    ensures CurrentGroup(GroupsData, "9") == Some(GroupsData[0])
  {
    CurrentGroupIsFirstMatch(GroupsData, "1", 0);
    CurrentGroupIsFirstMatch(GroupsData, "2", 1);
  }

  /** The file name of a three-word group name such as "Lagos Market Traders",
      whose Excel export is "Lagos_Market_Traders_report.xlsx". */
  lemma ExportFilenameWords(x: string, y: string, z: string, fmt: ExportFormat)
    requires |x| > 0 && |y| > 0 && |z| > 0
    requires HasNoSpace(x) && HasNoSpace(y) && HasNoSpace(z)
    ensures ExportFilename(x + (" " + (y + (" " + z))), fmt) == x + ("_" + (y + ("_" + z))) + ("_report." + Extension(fmt))
  {
    UnderscoredWords(x, y, z);
  }
}
