/**
 * The partial update the handler sends for `PUT /students/{id}`: one
 * `#k = :k` assignment per body member, with the placeholder maps that send
 * `#k` to the attribute name `k` and `:k` to the member's value.
 */
module UpdateExpressions {
  import opened Wrappers
  import opened Strings
  import opened Json
  import opened Store

  /** Marks a name placeholder, `#k`. */
  const NameMark: char := '#'

  /** Marks a value placeholder, `:k`. */
  const ValueMark: char := ':'

  /** The placeholder for `k`: dropping the mark recovers `k`, so distinct names get distinct placeholders. */
  function Placeholder(mark: char, k: string): (p: string)
    ensures |p| == |k| + 1 && p[0] == mark && p[1..] == k
  {
    [mark] + k
  }

  /** The assignments, one per member, in the body's order. */
  function Clauses(body: Object): seq<SetClause> {
    seq(|body|, i requires 0 <= i < |body| => SetClause(Placeholder(NameMark, body[i].name), Placeholder(ValueMark, body[i].name)))
  }

  /** `ExpressionAttributeNames`: `#k` stands for the attribute `k`. */
  function AttributeNames(body: Object): map<string, string> {
    map k | k in Names(body) :: Placeholder(NameMark, k) := k
  }

  /** `ExpressionAttributeValues`: `:k` stands for the body's value under `k`. */
  function AttributeValues(body: Object): map<string, Value> {
    var fields := ToRecord(body);
    map k | k in fields :: Placeholder(ValueMark, k) := fields[k]
  }

  /** Everything `update_item` receives besides the key. */
  function BuildUpdate(body: Object): UpdateRequest {
    UpdateRequest(Clauses(body), AttributeNames(body), AttributeValues(body))
  }

  /** One clause as it appears in the expression text. */
  function ClauseText(c: SetClause): string {
    c.name + " = " + c.value
  }

  /** The clauses joined by `", "`. */
  function JoinClauses(cs: seq<SetClause>): string {
    if |cs| == 0 then ""
    else if |cs| == 1 then ClauseText(cs[0])
    else JoinClauses(cs[..|cs| - 1]) + ", " + ClauseText(cs[|cs| - 1])
  }

  /** `UpdateExpression`: the text of the update. */
  function ExpressionText(body: Object): (text: string)
    ensures "SET " <= text
  {
    "SET " + JoinClauses(Clauses(body))
  }

  /** A name the expression text can carry unambiguously: no space and no comma. */
  predicate PlainName(k: string) {
    ' ' !in k && ',' !in k
  }

  /** The clause texts as the `,`-separated pieces of the joined text: all but the first start with a space. */
  function Pieces(cs: seq<SetClause>): seq<string> {
    seq(|cs|, i requires 0 <= i < |cs| => (if i == 0 then "" else " ") + ClauseText(cs[i]))
  }

  /** Reads one piece back as a clause: `#n = :v`, after a leading space unless it is the first piece. */
  function ParsePiece(piece: string, first: bool): Option<SetClause> {
    var words := SplitOn(piece, ' ');
    if first && |words| == 3 && words[1] == "=" then Some(SetClause(words[0], words[2]))
    else if !first && |words| == 4 && words[0] == "" && words[2] == "=" then Some(SetClause(words[1], words[3]))
    else None
  }

  /** Reads every piece back as a clause, if each is one. */
  function ParsePieces(pieces: seq<string>): Option<seq<SetClause>> {
    if forall i :: 0 <= i < |pieces| ==> ParsePiece(pieces[i], i == 0).Some?
    then Some(seq(|pieces|, i requires 0 <= i < |pieces| => ParsePiece(pieces[i], i == 0).value))
    else None
  }

  /** Reads an update expression text back as its clauses, if it is one. */
  function ParseExpression(text: string): Option<seq<SetClause>> {
    if !("SET " <= text) then None
    else ParsePieces(SplitOn(text[4..], ','))
  }

  /** The `", "` join of the clause texts is the `,` join of the pieces. */
  lemma {:induction false} JoinClausesPieces(cs: seq<SetClause>)
    requires |cs| >= 1
    ensures JoinClauses(cs) == JoinOn(Pieces(cs), ',')
  {
    var n := |cs|;
    if n > 1 {
      var front := cs[..n - 1];
      JoinClausesPieces(front);
      assert Pieces(cs)[..n - 1] == Pieces(front);
      assert Pieces(cs)[n - 1] == " " + ClauseText(cs[n - 1]);
    }
  }

  /** A clause's text is its three words joined by spaces. */
  lemma ClauseWords(c: SetClause)
    ensures JoinOn([c.name, "=", c.value], ' ') == ClauseText(c)
  {
    JoinSnoc([c.name], ' ', "=");
    JoinSnoc([c.name, "="], ' ', c.value);
    assert [c.name] + ["="] == [c.name, "="];
    assert [c.name, "="] + [c.value] == [c.name, "=", c.value];
  }

  /** A later piece is an empty word and the clause's three words, joined by spaces. */
  lemma LaterPieceWords(c: SetClause)
    ensures JoinOn(["", c.name, "=", c.value], ' ') == " " + ClauseText(c)
  {
    JoinSnoc([""], ' ', c.name);
    JoinSnoc(["", c.name], ' ', "=");
    JoinSnoc(["", c.name, "="], ' ', c.value);
    assert [""] + [c.name] == ["", c.name];
    assert ["", c.name] + ["="] == ["", c.name, "="];
    assert ["", c.name, "="] + [c.value] == ["", c.name, "=", c.value];
  }

  /** A clause whose placeholders hold no space reads back from its piece. */
  lemma ParseClausePiece(c: SetClause, first: bool)
    requires ' ' !in c.name && ' ' !in c.value
    ensures ParsePiece((if first then "" else " ") + ClauseText(c), first) == Some(c)
  {
    if first {
      var words := [c.name, "=", c.value];
      ClauseWords(c);
      SplitJoin(words, ' ');
      assert "" + ClauseText(c) == ClauseText(c);
    } else {
      var words := ["", c.name, "=", c.value];
      LaterPieceWords(c);
      SplitJoin(words, ' ');
    }
  }

  /** Clauses whose placeholders hold neither a space nor a comma. */
  predicate PlainClauses(cs: seq<SetClause>) {
    forall i :: 0 <= i < |cs| ==> PlainName(cs[i].name) && PlainName(cs[i].value)
  }

  /** Plain clauses give comma-free pieces. */
  lemma PiecesSeparated(cs: seq<SetClause>)
    requires PlainClauses(cs)
    ensures Separates(Pieces(cs), ',')
  {
  }

  /** The pieces of plain clauses read back as those clauses. */
  lemma ParsePiecesOf(cs: seq<SetClause>)
    requires PlainClauses(cs)
    ensures ParsePieces(Pieces(cs)) == Some(cs)
  {
    var pieces := Pieces(cs);
    forall i | 0 <= i < |pieces| ensures ParsePiece(pieces[i], i == 0) == Some(cs[i]) {
      ParseClausePiece(cs[i], i == 0);
    }
    var parsed := seq(|pieces|, i requires 0 <= i < |pieces| => ParsePiece(pieces[i], i == 0).value);
    assert parsed == cs;
  }

  /** Rendered plain clauses read back as themselves. */
  lemma ParseRendered(cs: seq<SetClause>)
    requires |cs| >= 1
    requires PlainClauses(cs)
    ensures ParseExpression("SET " + JoinClauses(cs)) == Some(cs)
  {
    var text := "SET " + JoinClauses(cs);
    assert "SET " <= text;
    assert text[4..] == JoinClauses(cs);
    JoinClausesPieces(cs);
    PiecesSeparated(cs);
    SplitJoin(Pieces(cs), ',');
    ParsePiecesOf(cs);
  }

  /** Placeholders built from plain names are plain. */
  lemma ClausesPlain(body: Object)
    requires forall i :: 0 <= i < |body| ==> PlainName(body[i].name)
    ensures PlainClauses(Clauses(body))
  {
  }

  /** With plain attribute names, the expression text reads back as exactly the clause list: one `#k = :k` per member, in order. */
  lemma ExpressionReadsBack(body: Object)
    requires |body| >= 1
    requires forall i :: 0 <= i < |body| ==> PlainName(body[i].name)
    ensures ParseExpression(ExpressionText(body)) == Some(Clauses(body))
  {
    ClausesPlain(body);
    ParseRendered(Clauses(body));
  }

  /** Clause i assigns member i's value to member i's name, and every placeholder it uses is defined. */
  lemma ClauseResolves(body: Object, i: nat)
    requires DistinctKeys(body)
    requires i < |body|
    ensures var u := BuildUpdate(body);
      && i < |u.clauses|
      && u.clauses[i].name in u.names && u.names[u.clauses[i].name] == body[i].name
      && u.clauses[i].value in u.values && u.values[u.clauses[i].value] == body[i].value
  {
    assert body[i].name in Names(body);
    ToRecordAt(body, i);
  }

  /**
   * The request built from a body is well formed: one clause per member,
   * each resolving to its member, and the placeholder maps hold the body's
   * members and nothing else.
   */
  lemma BuildUpdateShape(body: Object)
    requires DistinctKeys(body)
    ensures var u := BuildUpdate(body);
      && Defined(u)
      && |u.clauses| == |body|
      && u.names.Values == Names(body)
      && u.names.Keys == (set k | k in Names(body) :: Placeholder(NameMark, k))
      && u.values.Keys == (set k | k in Names(body) :: Placeholder(ValueMark, k))
  {
    var u := BuildUpdate(body);
    BuildUpdateDefined(body);
    forall k | k in Names(body) ensures k in u.names.Values {
      assert u.names[Placeholder(NameMark, k)] == k;
    }
  }

  /** Every placeholder the built clauses use is defined. */
  lemma BuildUpdateDefined(body: Object)
    requires DistinctKeys(body)
    ensures Defined(BuildUpdate(body))
  {
  }

  /** Setting one attribute after a merge is merging the record with that attribute set. */
  lemma MergeThenSet(item: Record, fields: Record, k: string, v: Value)
    ensures (item + fields)[k := v] == item + fields[k := v]
  {
  }

  /** The update resolves member by member: clause i sets member i's name to member i's value. */
  ghost predicate ResolvesTo(u: UpdateRequest, body: Object) {
    && Defined(u)
    && |u.clauses| == |body|
    && forall i :: 0 <= i < |body| ==>
         u.names[u.clauses[i].name] == body[i].name && u.values[u.clauses[i].value] == body[i].value
  }

  /** Evaluating the first n clauses of such an update merges the first n members into the item. */
  lemma {:induction false} ApplyClausesMerges(item: Record, u: UpdateRequest, body: Object, n: nat)
    requires ResolvesTo(u, body)
    requires n <= |body|
    ensures ApplyClauses(item, u, n) == item + ToRecord(body[..n])
  {
    if n == 0 {
      assert body[..0] == [];
    } else {
      ApplyClausesMerges(item, u, body, n - 1);
      var m := body[n - 1];
      assert body[..n][..n - 1] == body[..n - 1];
      assert ToRecord(body[..n]) == ToRecord(body[..n - 1])[m.name := m.value];
      MergeThenSet(item, ToRecord(body[..n - 1]), m.name, m.value);
    }
  }

  /** Evaluating all clauses of such an update merges the whole body into the item. */
  lemma EvaluateMerges(item: Record, u: UpdateRequest, body: Object)
    requires ResolvesTo(u, body)
    ensures Evaluate(item, u) == item + ToRecord(body)
  {
    ApplyClausesMerges(item, u, body, |body|);
    assert body[..|body|] == body;
  }

  /** The built update resolves member by member. */
  lemma BuildUpdateResolves(body: Object)
    requires DistinctKeys(body)
    ensures ResolvesTo(BuildUpdate(body), body)
  {
    var u := BuildUpdate(body);
    BuildUpdateDefined(body);
    forall i | 0 <= i < |body|
      ensures u.names[u.clauses[i].name] == body[i].name && u.values[u.clauses[i].value] == body[i].value
    {
      ClauseResolves(body, i);
    }
  }

  /**
   * What the table does with the built update is exactly the intended merge:
   * every body member is set on the item and every other attribute keeps its value.
   */
  lemma BuildUpdateMerges(item: Record, body: Object)
    requires DistinctKeys(body)
    ensures Defined(BuildUpdate(body))
    ensures Evaluate(item, BuildUpdate(body)) == item + ToRecord(body)
  {
    BuildUpdateResolves(body);
    EvaluateMerges(item, BuildUpdate(body), body);
  }
}
