/** The protocol metadata of an ASVspoof 2019 logical-access split: one line
    per utterance, space separated, read by position (speaker id, file name,
    an unused column, the spoofing-system label, the bonafide/spoof key). */
module Protocol {
  import opened Wrappers
  import opened PyStr

  /** One parsed protocol line (the `ASVFile` named tuple). */
  datatype ASVFile = ASVFile(speakerId: string, fileName: string, sysId: int, key: int)

  /** What `_parse_line` raises: `IndexError` on a missing token (the index
      it tried), `KeyError` on a label outside the table. */
  datatype ParseError = IndexError(index: nat) | KeyError(missingKey: string)

  /** The fixed label table: `-` is bonafide speech, the others name the
      spoofing systems of the training and development sets. */
  const SysIdDict: map<string, int> :=
    map["-" := 0, "SS_1" := 1, "SS_2" := 2, "SS_4" := 3, "US_1" := 4, "VC_1" := 5, "VC_4" := 6]

  /** The label a system id belongs to: the inverse of the table. */
  function SysLabel(id: int): (l: Option<string>)
    ensures l.Some? ==> l.value in SysIdDict && SysIdDict[l.value] == id
  {
    match id
    case 0 => Some("-")
    case 1 => Some("SS_1")
    case 2 => Some("SS_2")
    case 3 => Some("SS_4")
    case 4 => Some("US_1")
    case 5 => Some("VC_1")
    case 6 => Some("VC_4")
    case _ => None
  }

  /** The table has exactly the seven labels, numbers them 0 to 6 and gives
      no two labels the same number. */
  lemma SysIdDictShape()
    ensures SysIdDict.Keys == {"-", "SS_1", "SS_2", "SS_4", "US_1", "VC_1", "VC_4"}
    ensures SysIdDict.Values == {0, 1, 2, 3, 4, 5, 6}
    ensures forall a, b :: a in SysIdDict && b in SysIdDict && SysIdDict[a] == SysIdDict[b] ==> a == b
  {
    assert forall id :: 0 <= id <= 6 ==> SysLabel(id).Some?;
    forall a, b | a in SysIdDict && b in SysIdDict && SysIdDict[a] == SysIdDict[b] ensures a == b {
      SysLabelOfId(a);
      SysLabelOfId(b);
    }
  }

  /** `SysLabel` undoes the table lookup, so every table value is 0 to 6. */
  lemma SysLabelOfId(l: string)
    requires l in SysIdDict
    ensures SysLabel(SysIdDict[l]) == Some(l)
    ensures 0 <= SysIdDict[l] <= 6
  {
  }

  /** The tokens `_parse_line` works on: the line stripped of surrounding
      white space, then split at every single space. */
  function Tokens(line: string): (t: seq<string>)
    ensures |t| >= 1
  {
    Split(Strip(line), ' ')
  }

  /** `_parse_line`: tokenise the line, then read the tokens by position.
      The checks happen in the order Python evaluates the keyword arguments
      of the record: token 1, token 3, the table lookup, token 4. */
  function ParseLine(filesDir: string, line: string): (r: Result<ASVFile, ParseError>)
    ensures var t := Tokens(line); r.Success? <==> |t| >= 5 && t[3] in SysIdDict
    ensures var t := Tokens(line); r.Success? ==>
      && r.value.speakerId == t[0]
      && r.value.fileName == PathJoin(filesDir, t[1] + ".flac")
      && r.value.sysId == SysIdDict[t[3]]
      && (r.value.key == 1 <==> t[4] == "bonafide")
      && (r.value.key == 0 <==> t[4] != "bonafide")
    ensures var t := Tokens(line); |t| < 2 ==> r == Failure(IndexError(1))
    ensures var t := Tokens(line); 2 <= |t| < 4 ==> r == Failure(IndexError(3))
    ensures var t := Tokens(line); |t| >= 4 && t[3] !in SysIdDict ==> r == Failure(KeyError(t[3]))
    ensures var t := Tokens(line); |t| == 4 && t[3] in SysIdDict ==> r == Failure(IndexError(4))
  {
    var t := Tokens(line);
    if |t| < 2 then Failure(IndexError(1))
    else if |t| < 4 then Failure(IndexError(3))
    else if t[3] !in SysIdDict then Failure(KeyError(t[3]))
    else if |t| < 5 then Failure(IndexError(4))
    else
      Success(ASVFile(
        speakerId := t[0],
        fileName := PathJoin(filesDir, t[1] + ".flac"),
        sysId := SysIdDict[t[3]],
        key := if t[4] == "bonafide" then 1 else 0))
  }

  /** A line in the protocol's own format: five space-separated columns. */
  function FormatLine(speakerId: string, fileBase: string, unused: string, sysLabel: string, keyWord: string): string {
    Join([speakerId, fileBase, unused, sysLabel, keyWord], ' ')
  }

  /** The five columns with a single space between each two. */
  lemma FormatLineColumns(speakerId: string, fileBase: string, unused: string, sysLabel: string, keyWord: string)
    ensures FormatLine(speakerId, fileBase, unused, sysLabel, keyWord) ==
      speakerId + " " + fileBase + " " + unused + " " + sysLabel + " " + keyWord
  {
    var ts := [speakerId, fileBase, unused, sysLabel, keyWord];
    var t1, t2, t3, t4 := ts[1..], ts[2..], ts[3..], ts[4..];
    assert t4 == [keyWord] && Join(t4, ' ') == keyWord;
    assert t3[1..] == t4 && Join(t3, ' ') == sysLabel + " " + keyWord;
    assert t2[1..] == t3 && Join(t2, ' ') == unused + " " + (sysLabel + " " + keyWord);
    assert t1[1..] == t2 && Join(t1, ' ') == fileBase + " " + (unused + " " + (sysLabel + " " + keyWord));
    assert Join(ts, ' ') == speakerId + " " + (fileBase + " " + (unused + " " + (sysLabel + " " + keyWord)));
  }

  /** Columns without white space, the first and last of them non-empty,
      joined by single spaces come back as the tokens of the line. */
  lemma TokensOfJoin(ts: seq<string>)
    requires |ts| >= 1 && ts[0] != [] && ts[|ts| - 1] != []
    requires forall k :: 0 <= k < |ts| ==> NoSpace(ts[k])
    ensures Tokens(Join(ts, ' ')) == ts
  {
    var line := Join(ts, ' ');
    JoinEnds(ts, ' ');
    var f, l := ts[0], ts[|ts| - 1];
    assert line[0] == f[0] by {
      assert line[..|f|][0] == f[0];
    }
    assert line[|line| - 1] == l[|l| - 1] by {
      assert line[|line| - |l|..][|l| - 1] == l[|l| - 1];
    }
    assert !IsSpace(f[0]) && !IsSpace(l[|l| - 1]);
    StripUnchanged(line);
    assert forall k :: 0 <= k < |ts| ==> ' ' !in ts[k] by {
      assert IsSpace(' ');
    }
    SplitJoin(ts, ' ');
  }

  /** Parsing a well-formed line recovers every column it reads: the speaker
      id, the audio path under `filesDir`, the table value of the label and
      the key of the last column. */
  lemma ParseFormatLine(filesDir: string, speakerId: string, fileBase: string, unused: string, sysLabel: string, keyWord: string)
    requires NoSpace(speakerId) && NoSpace(fileBase) && NoSpace(unused) && NoSpace(sysLabel) && NoSpace(keyWord)
    requires speakerId != [] && keyWord != []
    requires sysLabel in SysIdDict
    ensures ParseLine(filesDir, FormatLine(speakerId, fileBase, unused, sysLabel, keyWord)) ==
      Success(ASVFile(speakerId, PathJoin(filesDir, fileBase + ".flac"), SysIdDict[sysLabel],
                      if keyWord == "bonafide" then 1 else 0))
  {
    TokensOfJoin([speakerId, fileBase, unused, sysLabel, keyWord]);
  }

  /** A label outside the table fails with `KeyError`, before token 4 is
      looked at, so even a four-column line fails that way. */
  lemma ParseUnknownLabel(filesDir: string, ts: seq<string>)
    requires |ts| >= 4 && ts[0] != [] && ts[|ts| - 1] != []
    requires forall k :: 0 <= k < |ts| ==> NoSpace(ts[k])
    requires ts[3] !in SysIdDict
    ensures ParseLine(filesDir, Join(ts, ' ')) == Failure(KeyError(ts[3]))
  {
    TokensOfJoin(ts);
  }

  /** The record for a bonafide line: speaker `LA_0001`, audio
      `LA_T_001.flac` under the audio directory, system 0, key 1. */
  lemma ParseBonafideExample(filesDir: string)
    ensures ParseLine(filesDir, "LA_0001 LA_T_001 - - bonafide") ==
      Success(ASVFile("LA_0001", PathJoin(filesDir, "LA_T_001.flac"), 0, 1))
  {
    BonafideExampleLine();
    BonafideExampleColumns();
    ParseFormatLine(filesDir, "LA_0001", "LA_T_001", "-", "-", "bonafide");
  }

  /** The bonafide example line is the five columns joined by spaces. */
  lemma BonafideExampleLine()
    ensures FormatLine("LA_0001", "LA_T_001", "-", "-", "bonafide") == "LA_0001 LA_T_001 - - bonafide"
  {
    FormatLineColumns("LA_0001", "LA_T_001", "-", "-", "bonafide");
  }

  /** The bonafide example's columns hold no white space and its label is
      the table's bonafide entry. Kept apart from the example so that these
      facts about literals are not in scope while the line is parsed. */
  lemma BonafideExampleColumns()
    ensures "LA_T_001" + ".flac" == "LA_T_001.flac"
    ensures NoSpace("LA_0001") && NoSpace("LA_T_001") && NoSpace("-") && NoSpace("bonafide")
    ensures "-" in SysIdDict && SysIdDict["-"] == 0
  {
  }

  /** The unknown-label example line joins four columns, and its label is
      not in the table. Kept apart from the example so that these facts
      about literals are not in scope while the line is parsed. */
  lemma UnknownLabelExampleColumns()
    ensures Join(["LA_0079", "LA_T_1", "-", "SS_3"], ' ') == "LA_0079 LA_T_1 - SS_3"
    ensures "SS_3" !in SysIdDict
  {
  }

  /** A four-column line whose label is not in the table. */
  lemma UnknownLabelExample()
    ensures ParseLine("flac", "LA_0079 LA_T_1 - SS_3") == Failure(KeyError("SS_3"))
  {
    UnknownLabelExampleColumns();
    var ts := ["LA_0079", "LA_T_1", "-", "SS_3"];
    assert forall k :: 0 <= k < |ts| ==> NoSpace(ts[k]);
    ParseUnknownLabel("flac", ts);
  }

  /** A blank line, or one of white space only, yields the single token `''`
      and fails on token 1. */
  lemma BlankLineFails(filesDir: string, line: string)
    requires forall k :: 0 <= k < |line| ==> IsSpace(line[k])
    ensures Tokens(line) == [""]
    ensures ParseLine(filesDir, line) == Failure(IndexError(1))
  {
    StripAllSpace(line);
  }

  /** A stripped line with fewer than four spaces has fewer than five tokens
      and fails. */
  lemma ShortLineFails(filesDir: string, line: string)
    requires Count(Strip(line), ' ') < 4
    ensures ParseLine(filesDir, line).Failure?
  {
    SplitCount(Strip(line), ' ');
  }

  /** The newline `readlines()` leaves on a line, or any other trailing white
      space, does not change the record. */
  lemma ParseLineTrailingSpace(filesDir: string, line: string, w: string)
    requires forall k :: 0 <= k < |w| ==> IsSpace(w[k])
    ensures ParseLine(filesDir, line + w) == ParseLine(filesDir, line)
  {
    assert Tokens(line + w) == Tokens(line) by {
      StripTrailingSpaces(line, w);
    }
  }

  /** No token holds a space, so neither does a parsed speaker id. */
  lemma SpeakerIdHasNoSpace(filesDir: string, line: string)
    requires ParseLine(filesDir, line).Success?
    ensures ' ' !in ParseLine(filesDir, line).value.speakerId
  {
    SplitPiecesLackSep(Strip(line), ' ');
  }

  /** The audio path ends with token 1 and `.flac`, and for a relative token
      under a directory not ending in `/` it is that directory, `/`, then
      the token. */
  lemma FileNameShape(filesDir: string, line: string)
    requires ParseLine(filesDir, line).Success?
    ensures var f := ParseLine(filesDir, line).value.fileName;
            var b := Tokens(line)[1] + ".flac";
            |f| >= |b| && f[|f| - |b|..] == b
    ensures var t := Tokens(line)[1];
            (t == [] || t[0] != '/') && filesDir != [] && filesDir[|filesDir| - 1] != '/' ==>
            ParseLine(filesDir, line).value.fileName == filesDir + "/" + t + ".flac"
  {
    PathJoinShape(filesDir, Tokens(line)[1] + ".flac");
  }

  /** `parse_protocols_file` after `readlines()`: `_parse_line` over every
      line in order; the first line that fails makes the whole parse fail. */
  function ParseProtocolsFile(filesDir: string, lines: seq<string>): (r: Result<seq<ASVFile>, ParseError>)
    ensures r.Success? <==> forall i :: 0 <= i < |lines| ==> ParseLine(filesDir, lines[i]).Success?
    ensures r.Success? ==> |r.value| == |lines|
    ensures r.Success? ==> forall i :: 0 <= i < |lines| ==> r.value[i] == ParseLine(filesDir, lines[i]).value
    ensures r.Failure? ==>
      exists i :: 0 <= i < |lines| && ParseLine(filesDir, lines[i]) == Failure(r.error) &&
        (forall j :: 0 <= j < i ==> ParseLine(filesDir, lines[j]).Success?)
  {
    MapResult(line => ParseLine(filesDir, line), lines)
  }

  /** Every record of a parsed file has a key of 0 or 1 and a system id of
      0 to 6. */
  lemma ParsedRecordsInRange(filesDir: string, lines: seq<string>)
    requires ParseProtocolsFile(filesDir, lines).Success?
    ensures forall m :: m in ParseProtocolsFile(filesDir, lines).value ==>
      (m.key == 0 || m.key == 1) && 0 <= m.sysId <= 6
  {
    var ms := ParseProtocolsFile(filesDir, lines).value;
    forall m | m in ms ensures (m.key == 0 || m.key == 1) && 0 <= m.sysId <= 6 {
      var i :| 0 <= i < |ms| && ms[i] == m;
      assert m == ParseLine(filesDir, lines[i]).value;
      SysLabelOfId(Tokens(lines[i])[3]);
    }
  }

  /** Parsing two pieces of a file separately and concatenating the records
      is the same as parsing the whole file. */
  lemma ParseProtocolsFileAppend(filesDir: string, a: seq<string>, b: seq<string>)
    ensures ParseProtocolsFile(filesDir, a + b).Success? <==>
      ParseProtocolsFile(filesDir, a).Success? && ParseProtocolsFile(filesDir, b).Success?
    ensures ParseProtocolsFile(filesDir, a + b).Success? ==>
      ParseProtocolsFile(filesDir, a + b).value ==
        ParseProtocolsFile(filesDir, a).value + ParseProtocolsFile(filesDir, b).value
  {
    MapResultAppend(line => ParseLine(filesDir, line), a, b);
  }
}
