/** Worked examples of the matcher on concrete labels and recognised texts. */
module MatcherExamples {
  import opened Geometry
  import opened Text
  import opened Matcher

  const Box: Rect := Rect(100.0, 200.0, 180.0, 212.0)

  lemma CleanPatientNameLabel()
    ensures CleanLabel("Patient Name:") == "patient name"
  {
    assert RStripChars("Patient Name:", {':', '*'}) == "Patient Name";
    StripPadded([], "Patient Name", []);
    assert [] + "Patient Name" + [] == "Patient Name";
    assert Lower("Patient Name") == "patient name";
  }

  lemma CleanPatientNameText()
    ensures CleanText("Patient Name:") == "patient name:"
  {
    assert Lower("Patient Name:") == "patient name:";
    StripPadded([], "patient name:", []);
    assert [] + "patient name:" + [] == "patient name:";
  }

  lemma PatientNameWords()
    ensures WordSet("patient name") == {"patient", "name"}
  {
    assert "patient" + [' '] + "name" == "patient name";
    WordSetOfWord("name");
    WordSetCons("patient", "name");
  }

  lemma PatientNameColonWords()
    ensures WordSet("patient name:") == {"patient", "name:"}
  {
    assert "patient" + [' '] + "name:" == "patient name:";
    WordSetOfWord("name:");
    WordSetCons("patient", "name:");
  }

  lemma OfBirthWords()
    ensures WordSet("of birth") == {"of", "birth"}
  {
    assert "of" + [' '] + "birth" == "of birth";
    WordSetOfWord("birth");
    WordSetCons("of", "birth");
  }

  lemma DateOfBirthSplit()
    ensures WordSet("date of birth") == {"date"} + WordSet("of birth")
  {
    assert "date" + [' '] + "of birth" == "date of birth";
    WordSetCons("date", "of birth");
  }

  lemma DateOfBirthWords()
    ensures WordSet("date of birth") == {"date", "of", "birth"}
  {
    DateOfBirthSplit();
    OfBirthWords();
  }

  lemma PatientNameSubstringScore()
    ensures SubstringScore("patient name", "patient name:") == 12.0 / 13.0
  {
    assert OccursAt("patient name:", "patient name", 0);
  }

  lemma SharedPatient(a: set<string>, b: set<string>)
    requires a == {"patient", "name"} && b == {"patient", "name:"}
    ensures |a * b| == 1 && |a| == 2
  {
    assert a * b == {"patient"};
  }

  lemma PatientNameWordScore()
    ensures WordScore("patient name", "patient name:") == 1.0 / 2.0
  {
    PatientNameWords();
    PatientNameColonWords();
    SharedPatient(WordSet("patient name"), WordSet("patient name:"));
  }

  /** "patient name" occurs in "patient name:", so the substring ratio 12/13 beats the word
      ratio 1/2. */
  lemma PatientNameScore()
    ensures PositionScore("patient name", "patient name:") == 12.0 / 13.0
  {
    PatientNameSubstringScore();
    PatientNameWordScore();
  }

  /** The label "Patient Name:" is matched to the recognised text "Patient Name:". */
  lemma PatientNameSelected()
    ensures MatchOf("Patient Name:", [TextPosition("Patient Name:", Box)], {}) == Some(0)
  {
    CleanPatientNameLabel();
    CleanPatientNameText();
    PatientNameScore();
    var scores := Scores("patient name", [TextPosition("Patient Name:", Box)]);
    assert scores[0] == 12.0 / 13.0;
    assert BestOf(scores, {}, 0) == Best(None, 0.0);
  }

  lemma NeitherContainsOther()
    ensures !ContainsSub("date of birth", "patient name") && !ContainsSub("patient name", "date of birth")
  {
    if ContainsSub("date of birth", "patient name") {
      ContainsNeedsChar("date of birth", "patient name", 0);
      assert false;
    }
  }

  lemma NothingShared(a: set<string>, b: set<string>)
    requires a == {"patient", "name"} && b == {"date", "of", "birth"}
    ensures a * b == {}
  {
    assert "patient" !in b && "name" !in b;
  }

  lemma DateOfBirthWordScore()
    ensures WordScore("patient name", "date of birth") == 0.0
  {
    PatientNameWords();
    DateOfBirthWords();
    NothingShared(WordSet("patient name"), WordSet("date of birth"));
  }

  /** "patient name" and "date of birth" share no word and neither contains the other. */
  lemma DateOfBirthScore()
    ensures PositionScore("patient name", "date of birth") == 0.0
  {
    NeitherContainsOther();
    DateOfBirthWordScore();
  }

  lemma CleanDateOfBirthText()
    ensures CleanText("Date of Birth") == "date of birth"
  {
    assert Lower("Date of Birth") == "date of birth";
    StripPadded([], "date of birth", []);
    assert [] + "date of birth" + [] == "date of birth";
  }

  /** The label "Patient Name:" finds nothing when the only text is "Date of Birth". */
  lemma DateOfBirthRejected()
    ensures MatchOf("Patient Name:", [TextPosition("Date of Birth", Box)], {}) == None
  {
    CleanPatientNameLabel();
    CleanDateOfBirthText();
    DateOfBirthScore();
    var scores := Scores("patient name", [TextPosition("Date of Birth", Box)]);
    assert scores[0] == 0.0;
    assert BestOf(scores, {}, 0) == Best(None, 0.0);
  }
}
