/**
 Match requests with the values that JSON gives them (matchmaker/matchmaker.go, lines 62-76;
 protocol/protocol.go, line 148), and what their printing does to keys.

 `%v` prints a string as itself. How it prints numbers, arrays and objects is left to an
 arbitrary function.
 */
module TypedCriteria {
  import opened MatchKey

  /** A decoded JSON value; `Other` stands for the numbers, arrays and objects. */
  datatype Value = Null | Flag(on: bool) | Text(text: string) | Other(id: nat)

  type Request = map<string, Value>

  /** How `%v` renders a value, given how it renders the others. */
  function Print(show: nat -> string, v: Value): string {
    match v
    case Null => "<nil>"
    case Flag(on) => if on then "true" else "false"
    case Text(text) => text
    case Other(id) => show(id)
  }

  function Printed(show: nat -> string, r: Request): Criteria {
    map k | k in r :: Print(show, r[k])
  }

  ghost function RequestKey(show: nat -> string, groupSize: int, r: Request): string {
    CriteriaKey(groupSize, Printed(show, r))
  }

  /** `criteriaKey` on the values themselves. */
  method BuildRequestKey(show: nat -> string, groupSize: int, r: Request) returns (key: string)
    ensures key == RequestKey(show, groupSize, r)
  {
    var printed: Criteria := map[];
    var rest := r.Keys;
    while rest != {}
      invariant rest <= r.Keys && printed == map k | k in r && k !in rest :: Print(show, r[k])
    {
      var k :| k in rest;
      rest := rest - {k};
      printed := printed[k := Print(show, r[k])];
    }
    assert printed == Printed(show, r);
    key := BuildKey(groupSize, printed);
  }

  // ---- Values that print alike ----

  /** A value that is no string, or a string that such a value is printed as. */
  ghost predicate Mistakable(show: nat -> string, v: Value) {
    !v.Text? || v.text in ["<nil>", "true", "false"] || exists id :: show(id) == v.text
  }

  /** These are exactly the values that some other value is printed like. */
  lemma MistakableIff(show: nat -> string, v: Value)
    ensures Mistakable(show, v) <==> exists w: Value :: w != v && Print(show, w) == Print(show, v)
  {
    if !v.Text? {
      assert Print(show, Text(Print(show, v))) == Print(show, v);
    } else {
      assert Print(show, Null) == "<nil>" && Print(show, Flag(true)) == "true" && Print(show, Flag(false)) == "false";
      if id :| show(id) == v.text { assert Print(show, Other(id)) == v.text; }
    }
  }

  ghost predicate Unmistakable(show: nat -> string, r: Request) {
    forall k <- r :: !Mistakable(show, r[k])
  }

  /** Criteria of such values are known by their printing. */
  lemma PrintingIdentifies(show: nat -> string, r: Request, q: Request)
    requires Unmistakable(show, r) && Printed(show, q) == Printed(show, r)
    ensures q == r
  {
    assert q.Keys == Printed(show, q).Keys == Printed(show, r).Keys == r.Keys;
    forall k <- r ensures q[k] == r[k] {
      assert Print(show, q[k]) == Printed(show, q)[k] == Printed(show, r)[k] == Print(show, r[k]);
      MistakableIff(show, r[k]);
    }
  }

  // ---- What the key determines ----

  /** If names and printed values contain no separator, and the values of one of the two
      requests cannot be mistaken, then keys are equal exactly if the requests are. */
  lemma KeyInjective(show: nat -> string, g1: int, r1: Request, g2: int, r2: Request)
    requires Clean(Printed(show, r1)) && Clean(Printed(show, r2)) && Unmistakable(show, r1)
    ensures RequestKey(show, g1, r1) == RequestKey(show, g2, r2) <==> g1 == g2 && r1 == r2
  {
    PrintedKeyInjective(g1, Printed(show, r1), g2, Printed(show, r2));
    if RequestKey(show, g1, r1) == RequestKey(show, g2, r2) {
      PrintingIdentifies(show, r1, r2);
    }
  }

  /** Some other request, of any group size and criteria, has the same key. */
  ghost predicate SharesKey(show: nat -> string, g: int, r: Request) {
    exists h: int, q: Request :: (h != g || q != r) && RequestKey(show, h, q) == RequestKey(show, g, r)
  }

  /** A request shares its key with another one if and only if it names two criteria or more,
      or has an equals sign in its one name or printed value, or that value is no string or
      a string that another value is printed as. */
  lemma KeySharedIff(show: nat -> string, g: int, r: Request)
    ensures SharesKey(show, g, r) <==> Ambiguous(Printed(show, r)) || !Unmistakable(show, r)
  {
    if Ambiguous(Printed(show, r)) {
      AmbiguousSharesKey(show, g, r);
    } else if !Unmistakable(show, r) {
      var k :| k in r && Mistakable(show, r[k]);
      MistakenSharesKey(show, g, r, k);
    } else {
      forall h: int, q: Request | RequestKey(show, h, q) == RequestKey(show, g, r) ensures h == g && q == r {
        KeyGivesGroupSize(h, Printed(show, q), g, Printed(show, r));
        UnambiguousIsAlone(Printed(show, r), Printed(show, q));
        PrintingIdentifies(show, r, q);
      }
    }
  }

  /** Any printed request is the printing of one with strings only. */
  function AsText(c: Criteria): Request {
    map k | k in c :: Text(c[k])
  }

  lemma AmbiguousSharesKey(show: nat -> string, g: int, r: Request)
    requires Ambiguous(Printed(show, r))
    ensures SharesKey(show, g, r)
  {
    PrintedKeySharedIff(g, Printed(show, r));
    var h: int, d: Criteria :| (h != g || d != Printed(show, r)) && CriteriaKey(h, d) == CriteriaKey(g, Printed(show, r));
    assert Printed(show, AsText(d)) == d;
    assert RequestKey(show, h, AsText(d)) == RequestKey(show, g, r);
  }

  lemma MistakenSharesKey(show: nat -> string, g: int, r: Request, k: string)
    requires k in r && Mistakable(show, r[k])
    ensures SharesKey(show, g, r)
  {
    MistakableIff(show, r[k]);
    var w: Value :| w != r[k] && Print(show, w) == Print(show, r[k]);
    var q := r[k := w];
    assert Printed(show, q) == Printed(show, r);
    assert q[k] != r[k];
    assert RequestKey(show, g, q) == RequestKey(show, g, r);
  }

  /** The number 1 and the string "1", or the value true and the string "true": one name, no
      separator, and one key. */
  lemma TypesCollide(show: nat -> string, one: nat, g: int)
    requires show(one) == "1"
    ensures var (a, b) := (map["level" := Other(one)], map["level" := Text("1")]);
            a != b && RequestKey(show, g, a) == RequestKey(show, g, b) && Clean(Printed(show, a))
    ensures var (a, b) := (map["ranked" := Flag(true)], map["ranked" := Text("true")]);
            a != b && RequestKey(show, g, a) == RequestKey(show, g, b)
  {
    var a, b: Request := map["level" := Other(one)], map["level" := Text("1")];
    assert a["level"] != b["level"];
    assert Printed(show, a) == Printed(show, b) == map["level" := "1"];
    assert CleanString("level") && CleanString("1");
    var c, d: Request := map["ranked" := Flag(true)], map["ranked" := Text("true")];
    assert c["ranked"] != d["ranked"];
    assert Printed(show, c) == Printed(show, d);
  }
}
