/**
  `TBCAProcessor.processar_descricao`: a food description such as
  "Feijão, carioca, c/ sal" is split at its commas into the food's name
  (`principal`, the first piece) and an observations line (the later pieces,
  each cleaned, joined again with ", "; the name itself when there are no
  later pieces).
*/
module Description {
  import opened Text

  datatype Described = Described(principal: string, observacoesLinha: string)

  /**
    One later piece of a description: stripped, then "s/" becomes "sem" and
    after that "c/" becomes "com".  The result contains neither abbreviation,
    gains no comma, and is just the stripped piece when it held none.
  */
  function CleanSegment(part: string): (r: string)
    ensures !Contains(r, "s/") && !Contains(r, "c/")
    ensures ',' !in part ==> ',' !in r
    ensures !Contains(Strip(part), "s/") && !Contains(Strip(part), "c/") ==> r == Strip(part)
  {
    var stripped := Strip(part);
    var sem := Replace(stripped, "s/", "sem");
    var com := Replace(sem, "c/", "com");
    ReplaceClearsPair(stripped, 's', '/', "sem", 's');
    ReplaceClearsPair(sem, 'c', '/', "com", 's');
    ReplaceClearsPair(sem, 'c', '/', "com", 'c');
    PairIsContains(com, 's', '/');
    PairIsContains(com, 'c', '/');
    StripKeepsAbsent(part, ',');
    ReplaceKeepsAbsent(stripped, "s/", "sem", ',');
    ReplaceKeepsAbsent(sem, "c/", "com", ',');
    ReplaceAbsent(stripped, "s/", "sem");
    ReplaceAbsent(sem, "c/", "com");
    com
  }

  /** Each piece cleaned, in order. */
  function CleanAll(parts: seq<string>): (r: seq<string>)
    ensures |r| == |parts|
    ensures forall k | 0 <= k < |r| :: r[k] == CleanSegment(parts[k])
  {
    seq(|parts|, k requires 0 <= k < |parts| => CleanSegment(parts[k]))
  }

  /** The cleaned pieces after the first comma (the Python list `observacoes`). */
  function Observations(descricao: string): seq<string> {
    CleanAll(Split(descricao, ",")[1..])
  }

  /**
    `processar_descricao(descricao)`: `principal` is the stripped text
    before the first comma; with no comma the observations line is
    `principal` itself, otherwise it is the observations joined by ", ".
  */
  function ProcessDescription(descricao: string): (r: Described)
    ensures r.principal == Strip(descricao[..IndexOf(descricao, ',')])
    ensures ',' !in descricao ==> r.principal == Strip(descricao) && r.observacoesLinha == r.principal
    ensures ',' in descricao ==> r.observacoesLinha == Join(Observations(descricao), ", ")
  {
    var partes := Split(descricao, ",");
    var principal := Strip(partes[0]);
    var observacoes := CleanAll(partes[1..]);
    assert principal == Strip(descricao[..IndexOf(descricao, ',')]) by {
      FirstPieceBeforeIndex(descricao, ',');
    }
    assert |observacoes| == multiset(descricao)[','] by {
      SplitChar(descricao, ',');
    }
    assert ',' !in descricao ==> descricao[..IndexOf(descricao, ',')] == descricao;
    Described(principal, if |observacoes| > 0 then Join(observacoes, ", ") else principal)
  }

  /** A description with k commas has exactly k observation segments. */
  lemma ObservationCount(descricao: string)
    ensures |Observations(descricao)| == multiset(descricao)[',']
  {
    SplitChar(descricao, ',');
  }

  /**
    The observation segments are the cleaned comma-separated pieces of the
    text after the first comma, in their original order.
  */
  lemma ObservationsAfterFirstComma(descricao: string)
    requires ',' in descricao
    ensures var i := IndexOf(descricao, ',');
      i < |descricao| && Observations(descricao) == CleanAll(Split(descricao[i + 1..], ","))
  {
    SplitChar(descricao, ',');
    FirstPieceBeforeIndex(descricao, ',');
    SplitRest(descricao, ",");
  }

  /** No observation segment holds a comma or an abbreviation left unexpanded. */
  lemma ObservationsClean(descricao: string)
    ensures forall k | 0 <= k < |Observations(descricao)| ::
      && ',' !in Observations(descricao)[k]
      && !Contains(Observations(descricao)[k], "s/")
      && !Contains(Observations(descricao)[k], "c/")
  {
    SplitChar(descricao, ',');
    var parts := Split(descricao, ",");
    forall j | 1 <= j < |parts| ensures ',' !in CleanSegment(parts[j]) {
      assert ',' !in parts[j];
    }
  }

  /** Joining comma-free pieces with ", " puts exactly one comma between neighbours. */
  lemma {:induction false} JoinCommaCount(parts: seq<string>)
    requires |parts| > 0
    requires forall k | 0 <= k < |parts| :: ',' !in parts[k]
    ensures multiset(Join(parts, ", "))[','] == |parts| - 1
  {
    if |parts| > 1 {
      JoinCommaCount(parts[1..]);
      var rest := Join(parts[1..], ", ");
      assert Join(parts, ", ") == parts[0] + ", " + rest;
      assert multiset(parts[0] + ", " + rest) == multiset(parts[0]) + multiset(", ") + multiset(rest);
    }
  }

  /**
    The observations line of a description with k > 0 commas has k - 1
    commas: it splits back into exactly its k segments.
  */
  lemma ObservationLineSplitsBack(descricao: string)
    requires ',' in descricao
    ensures |Split(ProcessDescription(descricao).observacoesLinha, ",")| == multiset(descricao)[',']
  {
    ObservationCount(descricao);
    ObservationsClean(descricao);
    JoinCommaCount(Observations(descricao));
    SplitChar(ProcessDescription(descricao).observacoesLinha, ',');
  }

  /**
    A description assembled from comma-free pieces yields the first piece,
    stripped, as `principal` and the later pieces, each cleaned, as the
    observations: the normaliser undoes the joining.
  */
  lemma DescriptionOfPieces(pieces: seq<string>)
    requires |pieces| > 0
    requires forall k | 0 <= k < |pieces| :: ',' !in pieces[k]
    ensures var r := ProcessDescription(Join(pieces, ","));
      && r.principal == Strip(pieces[0])
      && r.observacoesLinha == if |pieces| == 1 then Strip(pieces[0]) else Join(CleanAll(pieces[1..]), ", ")
  {
    SplitJoin(pieces, ',');
  }

  lemma StripComSal()
    ensures Strip(" c/ sal") == "c/ sal"
  {
    assert TrimLeft(" c/ sal") == "c/ sal" by { assert " c/ sal"[1..] == "c/ sal"; }
  }

  lemma NoSemInComSal()
    ensures Replace("c/ sal", "s/", "sem") == "c/ sal"
  {
    assert !HasPair("c/ sal", 's', '/');
    PairIsContains("c/ sal", 's', '/');
    ReplaceAbsent("c/ sal", "s/", "sem");
  }

  lemma ComInComSal()
    ensures Replace("c/ sal", "c/", "com") == "com sal"
  {
    assert "c/ sal"[2..] == " sal";
    assert !HasPair(" sal", 'c', '/');
    PairIsContains(" sal", 'c', '/');
    ReplaceAbsent(" sal", "c/", "com");
    ReplaceAtStart("c/ sal", "c/", "com");
  }

  /** " c/ sal" is cleaned to "com sal". */
  lemma CleanComSal()
    ensures CleanSegment(" c/ sal") == "com sal"
  {
    StripComSal();
    NoSemInComSal();
    ComInComSal();
  }

  lemma CleanAllComSal()
    ensures CleanAll([" c/ sal"]) == ["com sal"]
  {
    CleanComSal();
  }

  /** "Feijão, c/ sal" (written as its pieces joined by commas) gives "Feijão" and "com sal". */
  lemma ExampleAbbreviation()
    ensures ProcessDescription(Join(["Feijão", " c/ sal"], ",")) == Described("Feijão", "com sal")
  {
    StripUnchanged("Feijão");
    CleanAllComSal();
    DescriptionOfPieces(["Feijão", " c/ sal"]);
  }

  /** " Pão " (no comma) gives "Pão" twice. */
  lemma ExampleNoComma()
    ensures ProcessDescription(" Pão ") == Described("Pão", "Pão")
  {
    StripPao();
    assert ',' !in " Pão " by {
      assert forall k | 0 <= k < 5 :: " Pão "[k] != ',';
    }
    var r := ProcessDescription(" Pão ");
    assert r.principal == "Pão" && r.observacoesLinha == "Pão";
  }

  /** `" Pão ".strip()`. */
  lemma StripPao()
    ensures Strip(" Pão ") == "Pão"
  {
    assert TrimLeft(" Pão ") == "Pão " by { assert " Pão "[1..] == "Pão "; }
    assert TrimRight("Pão ") == "Pão" by { assert "Pão "[..3] == "Pão"; }
  }
}
