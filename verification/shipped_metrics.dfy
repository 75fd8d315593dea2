/**
 * The shorthands of the ten shipped metric titles (config.py). For each
 * title, `...Rewritten` gives its text after the three replacements,
 * `...Words` that text as its words joined by single spaces, every word
 * starting with a letter, and `...Listed` its place in the metric list;
 * `Initials.TitleShorthand` then gives the shorthand as the lower-cased
 * first letters, with or without the list's bullet. The literal facts stay
 * in separate lemmas: together they are far costlier for the solver than
 * apart.
 */
module ShippedMetrics {
  import opened Base
  import opened Initials
  import Config

  /** The titles of the metric list, in order. */
  lemma MetricListed()
    ensures Config.Metric == ["• Code Quality Metrics",
      "• Development Efficiency",
      "• Collaboration & Communication",
      "• Learning and Growth",
      "• Task and Time Management",
      "• Customer/End-User Focus",
      "• Innovation and Initiative",
      "• Consistency and Reliability",
      "• Team Support & Mentorship",
      "• Work-Life Balance"]
  {
  }

  /** A title's shorthand from its words: the step every title below shares. */
  lemma ShorthandFromWords(title: string, rewritten: string, ws: seq<string>, sh: string)
    requires |ws| >= 1 && LetterWords(ws) && Normalize(title) == rewritten && Join(ws) == rewritten
    requires FirstLetters(ws) == sh
    ensures FetchInitials(title) == Ok(sh) && FetchInitials("• " + title) == Ok(sh)
  {
    TitleShorthand(title, ws);
  }

  // "Code Quality Metrics"

  lemma CodeQualityMetricsRewritten()
    ensures Normalize("Code Quality Metrics") == "Code Quality Metrics"
  {
  }

  lemma CodeQualityMetricsListed()
    ensures Config.Metric[0] == "• " + "Code Quality Metrics"
  {
    assert Config.Metric[0] == Config.MetricDescriptive[0].0;
  }

  lemma CodeQualityMetricsWords()
    ensures Join(["Code", "Quality", "Metrics"]) == "Code Quality Metrics"
    ensures LetterWords(["Code", "Quality", "Metrics"]) && FirstLetters(["Code", "Quality", "Metrics"]) == "cqm"
  {
    assert ["Code", "Quality", "Metrics"][1..] == ["Quality", "Metrics"];
    assert ["Quality", "Metrics"][1..] == ["Metrics"];
    assert "Code Quality Metrics" == "Code" + " " + ("Quality" + " " + "Metrics");
  }

  /** "Code Quality Metrics" gives `cqm`, with or without its bullet in the metric list. */
  lemma CodeQualityMetricsShorthand()
    ensures FetchInitials("Code Quality Metrics") == Ok("cqm")
    ensures FetchInitials(Config.Metric[0]) == Ok("cqm")
  {
    CodeQualityMetricsRewritten();
    CodeQualityMetricsWords();
    CodeQualityMetricsListed();
    ShorthandFromWords("Code Quality Metrics", "Code Quality Metrics", ["Code", "Quality", "Metrics"], "cqm");
  }

  // "Development Efficiency"

  lemma DevelopmentEfficiencyRewritten()
    ensures Normalize("Development Efficiency") == "Development Efficiency"
  {
  }

  lemma DevelopmentEfficiencyListed()
    ensures Config.Metric[1] == "• " + "Development Efficiency"
  {
    assert Config.Metric[1] == Config.MetricDescriptive[1].0;
  }

  lemma DevelopmentEfficiencyWords()
    ensures Join(["Development", "Efficiency"]) == "Development Efficiency"
    ensures LetterWords(["Development", "Efficiency"]) && FirstLetters(["Development", "Efficiency"]) == "de"
  {
    assert ["Development", "Efficiency"][1..] == ["Efficiency"];
    assert "Development Efficiency" == "Development" + " " + "Efficiency";
  }

  /** "Development Efficiency" gives `de`, with or without its bullet in the metric list. */
  lemma DevelopmentEfficiencyShorthand()
    ensures FetchInitials("Development Efficiency") == Ok("de")
    ensures FetchInitials(Config.Metric[1]) == Ok("de")
  {
    DevelopmentEfficiencyRewritten();
    DevelopmentEfficiencyWords();
    DevelopmentEfficiencyListed();
    ShorthandFromWords("Development Efficiency", "Development Efficiency", ["Development", "Efficiency"], "de");
  }

  // "Collaboration & Communication"

  lemma CollaborationCommunicationRewritten()
    ensures Normalize("Collaboration & Communication") == "Collaboration a Communication"
  {
  }

  lemma CollaborationCommunicationListed()
    ensures Config.Metric[2] == "• " + "Collaboration & Communication"
  {
    assert Config.Metric[2] == Config.MetricDescriptive[2].0;
  }

  lemma CollaborationCommunicationWords()
    ensures Join(["Collaboration", "a", "Communication"]) == "Collaboration a Communication"
    ensures LetterWords(["Collaboration", "a", "Communication"]) && FirstLetters(["Collaboration", "a", "Communication"]) == "cac"
  {
    assert ["Collaboration", "a", "Communication"][1..] == ["a", "Communication"];
    assert ["a", "Communication"][1..] == ["Communication"];
    assert "Collaboration a Communication" == "Collaboration" + " " + ("a" + " " + "Communication");
  }

  /** "Collaboration & Communication" gives `cac`, with or without its bullet in the metric list: `&` becomes the word `a`. */
  lemma CollaborationCommunicationShorthand()
    ensures FetchInitials("Collaboration & Communication") == Ok("cac")
    ensures FetchInitials(Config.Metric[2]) == Ok("cac")
  {
    CollaborationCommunicationRewritten();
    CollaborationCommunicationWords();
    CollaborationCommunicationListed();
    ShorthandFromWords("Collaboration & Communication", "Collaboration a Communication", ["Collaboration", "a", "Communication"], "cac");
  }

  // "Learning and Growth"

  lemma LearningGrowthRewritten()
    ensures Normalize("Learning and Growth") == "Learning and Growth"
  {
  }

  lemma LearningGrowthListed()
    ensures Config.Metric[3] == "• " + "Learning and Growth"
  {
    assert Config.Metric[3] == Config.MetricDescriptive[3].0;
  }

  lemma LearningGrowthWords()
    ensures Join(["Learning", "and", "Growth"]) == "Learning and Growth"
    ensures LetterWords(["Learning", "and", "Growth"]) && FirstLetters(["Learning", "and", "Growth"]) == "lag"
  {
    assert ["Learning", "and", "Growth"][1..] == ["and", "Growth"];
    assert ["and", "Growth"][1..] == ["Growth"];
    assert "Learning and Growth" == "Learning" + " " + ("and" + " " + "Growth");
  }

  /** "Learning and Growth" gives `lag`, with or without its bullet in the metric list. */
  lemma LearningGrowthShorthand()
    ensures FetchInitials("Learning and Growth") == Ok("lag")
    ensures FetchInitials(Config.Metric[3]) == Ok("lag")
  {
    LearningGrowthRewritten();
    LearningGrowthWords();
    LearningGrowthListed();
    ShorthandFromWords("Learning and Growth", "Learning and Growth", ["Learning", "and", "Growth"], "lag");
  }

  // "Task and Time Management"

  lemma TaskTimeManagementRewritten()
    ensures Normalize("Task and Time Management") == "Task and Time Management"
  {
  }

  lemma TaskTimeManagementListed()
    ensures Config.Metric[4] == "• " + "Task and Time Management"
  {
    assert Config.Metric[4] == Config.MetricDescriptive[4].0;
  }

  lemma TaskTimeManagementWords()
    ensures Join(["Task", "and", "Time", "Management"]) == "Task and Time Management"
    ensures LetterWords(["Task", "and", "Time", "Management"]) && FirstLetters(["Task", "and", "Time", "Management"]) == "tatm"
  {
    assert ["Task", "and", "Time", "Management"][1..] == ["and", "Time", "Management"];
    assert ["and", "Time", "Management"][1..] == ["Time", "Management"];
    assert ["Time", "Management"][1..] == ["Management"];
    assert "Task and Time Management" == "Task" + " " + ("and" + " " + ("Time" + " " + "Management"));
  }

  /** "Task and Time Management" gives `tatm`, with or without its bullet in the metric list. */
  lemma TaskTimeManagementShorthand()
    ensures FetchInitials("Task and Time Management") == Ok("tatm")
    ensures FetchInitials(Config.Metric[4]) == Ok("tatm")
  {
    TaskTimeManagementRewritten();
    TaskTimeManagementWords();
    TaskTimeManagementListed();
    ShorthandFromWords("Task and Time Management", "Task and Time Management", ["Task", "and", "Time", "Management"], "tatm");
  }

  // "Customer/End-User Focus"

  lemma CustomerFocusRewritten()
    ensures Normalize("Customer/End-User Focus") == "Customer End User Focus"
  {
  }

  lemma CustomerFocusListed()
    ensures Config.Metric[5] == "• " + "Customer/End-User Focus"
  {
    assert Config.Metric[5] == Config.MetricDescriptive[5].0;
  }

  lemma CustomerFocusWords()
    ensures Join(["Customer", "End", "User", "Focus"]) == "Customer End User Focus"
    ensures LetterWords(["Customer", "End", "User", "Focus"]) && FirstLetters(["Customer", "End", "User", "Focus"]) == "ceuf"
  {
    assert ["Customer", "End", "User", "Focus"][1..] == ["End", "User", "Focus"];
    assert ["End", "User", "Focus"][1..] == ["User", "Focus"];
    assert ["User", "Focus"][1..] == ["Focus"];
    assert "Customer End User Focus" == "Customer" + " " + ("End" + " " + ("User" + " " + "Focus"));
  }

  /** "Customer/End-User Focus" gives `ceuf`, with or without its bullet in the metric list: `/` and `-` separate words. */
  lemma CustomerFocusShorthand()
    ensures FetchInitials("Customer/End-User Focus") == Ok("ceuf")
    ensures FetchInitials(Config.Metric[5]) == Ok("ceuf")
  {
    CustomerFocusRewritten();
    CustomerFocusWords();
    CustomerFocusListed();
    ShorthandFromWords("Customer/End-User Focus", "Customer End User Focus", ["Customer", "End", "User", "Focus"], "ceuf");
  }

  // "Innovation and Initiative"

  lemma InnovationInitiativeRewritten()
    ensures Normalize("Innovation and Initiative") == "Innovation and Initiative"
  {
  }

  lemma InnovationInitiativeListed()
    ensures Config.Metric[6] == "• " + "Innovation and Initiative"
  {
    assert Config.Metric[6] == Config.MetricDescriptive[6].0;
  }

  lemma InnovationInitiativeWords()
    ensures Join(["Innovation", "and", "Initiative"]) == "Innovation and Initiative"
    ensures LetterWords(["Innovation", "and", "Initiative"]) && FirstLetters(["Innovation", "and", "Initiative"]) == "iai"
  {
    assert ["Innovation", "and", "Initiative"][1..] == ["and", "Initiative"];
    assert ["and", "Initiative"][1..] == ["Initiative"];
    assert "Innovation and Initiative" == "Innovation" + " " + ("and" + " " + "Initiative");
  }

  /** "Innovation and Initiative" gives `iai`, with or without its bullet in the metric list. */
  lemma InnovationInitiativeShorthand()
    ensures FetchInitials("Innovation and Initiative") == Ok("iai")
    ensures FetchInitials(Config.Metric[6]) == Ok("iai")
  {
    InnovationInitiativeRewritten();
    InnovationInitiativeWords();
    InnovationInitiativeListed();
    ShorthandFromWords("Innovation and Initiative", "Innovation and Initiative", ["Innovation", "and", "Initiative"], "iai");
  }

  // "Consistency and Reliability"

  lemma ConsistencyReliabilityRewritten()
    ensures Normalize("Consistency and Reliability") == "Consistency and Reliability"
  {
  }

  lemma ConsistencyReliabilityListed()
    ensures Config.Metric[7] == "• " + "Consistency and Reliability"
  {
    assert Config.Metric[7] == Config.MetricDescriptive[7].0;
  }

  lemma ConsistencyReliabilityWords()
    ensures Join(["Consistency", "and", "Reliability"]) == "Consistency and Reliability"
    ensures LetterWords(["Consistency", "and", "Reliability"]) && FirstLetters(["Consistency", "and", "Reliability"]) == "car"
  {
    assert ["Consistency", "and", "Reliability"][1..] == ["and", "Reliability"];
    assert ["and", "Reliability"][1..] == ["Reliability"];
    assert "Consistency and Reliability" == "Consistency" + " " + ("and" + " " + "Reliability");
  }

  /** "Consistency and Reliability" gives `car`, with or without its bullet in the metric list. */
  lemma ConsistencyReliabilityShorthand()
    ensures FetchInitials("Consistency and Reliability") == Ok("car")
    ensures FetchInitials(Config.Metric[7]) == Ok("car")
  {
    ConsistencyReliabilityRewritten();
    ConsistencyReliabilityWords();
    ConsistencyReliabilityListed();
    ShorthandFromWords("Consistency and Reliability", "Consistency and Reliability", ["Consistency", "and", "Reliability"], "car");
  }

  // "Team Support & Mentorship"

  lemma TeamSupportMentorshipRewritten()
    ensures Normalize("Team Support & Mentorship") == "Team Support a Mentorship"
  {
  }

  lemma TeamSupportMentorshipListed()
    ensures Config.Metric[8] == "• " + "Team Support & Mentorship"
  {
    assert Config.Metric[8] == Config.MetricDescriptive[8].0;
  }

  lemma TeamSupportMentorshipWords()
    ensures Join(["Team", "Support", "a", "Mentorship"]) == "Team Support a Mentorship"
    ensures LetterWords(["Team", "Support", "a", "Mentorship"]) && FirstLetters(["Team", "Support", "a", "Mentorship"]) == "tsam"
  {
    assert ["Team", "Support", "a", "Mentorship"][1..] == ["Support", "a", "Mentorship"];
    assert ["Support", "a", "Mentorship"][1..] == ["a", "Mentorship"];
    assert ["a", "Mentorship"][1..] == ["Mentorship"];
    assert "Team Support a Mentorship" == "Team" + " " + ("Support" + " " + ("a" + " " + "Mentorship"));
  }

  /** "Team Support & Mentorship" gives `tsam`, with or without its bullet in the metric list: `&` becomes the word `a`. */
  lemma TeamSupportMentorshipShorthand()
    ensures FetchInitials("Team Support & Mentorship") == Ok("tsam")
    ensures FetchInitials(Config.Metric[8]) == Ok("tsam")
  {
    TeamSupportMentorshipRewritten();
    TeamSupportMentorshipWords();
    TeamSupportMentorshipListed();
    ShorthandFromWords("Team Support & Mentorship", "Team Support a Mentorship", ["Team", "Support", "a", "Mentorship"], "tsam");
  }

  // "Work-Life Balance"

  lemma WorkLifeBalanceRewritten()
    ensures Normalize("Work-Life Balance") == "Work Life Balance"
  {
  }

  lemma WorkLifeBalanceListed()
    ensures Config.Metric[9] == "• " + "Work-Life Balance"
  {
    assert Config.Metric[9] == Config.MetricDescriptive[9].0;
  }

  lemma WorkLifeBalanceWords()
    ensures Join(["Work", "Life", "Balance"]) == "Work Life Balance"
    ensures LetterWords(["Work", "Life", "Balance"]) && FirstLetters(["Work", "Life", "Balance"]) == "wlb"
  {
    assert ["Work", "Life", "Balance"][1..] == ["Life", "Balance"];
    assert ["Life", "Balance"][1..] == ["Balance"];
    assert "Work Life Balance" == "Work" + " " + ("Life" + " " + "Balance");
  }

  /** "Work-Life Balance" gives `wlb`, with or without its bullet in the metric list: `-` separates words. */
  lemma WorkLifeBalanceShorthand()
    ensures FetchInitials("Work-Life Balance") == Ok("wlb")
    ensures FetchInitials(Config.Metric[9]) == Ok("wlb")
  {
    WorkLifeBalanceRewritten();
    WorkLifeBalanceWords();
    WorkLifeBalanceListed();
    ShorthandFromWords("Work-Life Balance", "Work Life Balance", ["Work", "Life", "Balance"], "wlb");
  }

  // ---------------------------------------------------------------------------
  // The metric list of the configuration

  /** The shorthands of the shipped metric titles, in order. */
  const Shorthands: seq<string> := ["cqm", "de", "cac", "lag", "tatm", "ceuf", "iai", "car", "tsam", "wlb"]

  lemma MetricCount()
    ensures |Config.Metric| == 10
  {
  }

  /** The shorthand of every title of the metric list. */
  lemma ShippedMetricShorthand(i: int)
    requires 0 <= i < |Config.Metric|
    ensures FetchInitials(Config.Metric[i]) == Ok(Shorthands[i])
  {
    MetricCount();
    if i == 0 {
      assert FetchInitials(Config.Metric[0]) == Ok("cqm") by { CodeQualityMetricsShorthand(); }
      assert Shorthands[0] == "cqm";
    } else if i == 1 {
      assert FetchInitials(Config.Metric[1]) == Ok("de") by { DevelopmentEfficiencyShorthand(); }
      assert Shorthands[1] == "de";
    } else if i == 2 {
      assert FetchInitials(Config.Metric[2]) == Ok("cac") by { CollaborationCommunicationShorthand(); }
      assert Shorthands[2] == "cac";
    } else if i == 3 {
      assert FetchInitials(Config.Metric[3]) == Ok("lag") by { LearningGrowthShorthand(); }
      assert Shorthands[3] == "lag";
    } else if i == 4 {
      assert FetchInitials(Config.Metric[4]) == Ok("tatm") by { TaskTimeManagementShorthand(); }
      assert Shorthands[4] == "tatm";
    } else if i == 5 {
      assert FetchInitials(Config.Metric[5]) == Ok("ceuf") by { CustomerFocusShorthand(); }
      assert Shorthands[5] == "ceuf";
    } else if i == 6 {
      assert FetchInitials(Config.Metric[6]) == Ok("iai") by { InnovationInitiativeShorthand(); }
      assert Shorthands[6] == "iai";
    } else if i == 7 {
      assert FetchInitials(Config.Metric[7]) == Ok("car") by { ConsistencyReliabilityShorthand(); }
      assert Shorthands[7] == "car";
    } else if i == 8 {
      assert FetchInitials(Config.Metric[8]) == Ok("tsam") by { TeamSupportMentorshipShorthand(); }
      assert Shorthands[8] == "tsam";
    } else {
      assert FetchInitials(Config.Metric[9]) == Ok("wlb") by { WorkLifeBalanceShorthand(); }
      assert Shorthands[9] == "wlb";
    }
  }

  lemma ShorthandsUnique()
    ensures forall i, j :: 0 <= i < j < |Shorthands| ==> Shorthands[i] != Shorthands[j]
  {
  }

  /**
   * The shipped metric titles have pairwise distinct shorthands, as the
   * configuration requires: no two metrics share their input fields.
   */
  lemma ShippedShorthandsDistinct()
    ensures forall i :: 0 <= i < |Config.Metric| ==> FetchInitials(Config.Metric[i]).Ok?
    ensures forall i, j :: 0 <= i < j < |Config.Metric| ==>
      FetchInitials(Config.Metric[i]) != FetchInitials(Config.Metric[j])
  {
    forall i | 0 <= i < |Config.Metric|
      ensures FetchInitials(Config.Metric[i]).Ok?
    {
      ShippedMetricShorthand(i);
    }
    forall i, j | 0 <= i < j < |Config.Metric|
      ensures FetchInitials(Config.Metric[i]) != FetchInitials(Config.Metric[j])
    {
      ShippedMetricShorthand(i);
      ShippedMetricShorthand(j);
      MetricCount();
      ShorthandsUnique();
    }
  }
}
