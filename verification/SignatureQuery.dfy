/** Searching the signature index (tools/gis_chordID.C): the pruned descent and
    the linear scan it must agree with. */
module SignatureQuery {
  import opened Poly
  import opened PolyDivides
  import opened PolyBits
  import opened PolyWords
  import opened SignatureSpec

  /** Some query signature divides a. */
  ghost predicate Hit(sigs: seq<Vec>, a: nat) {
    exists q :: q in sigs && Divides(Val(q), a)
  }

  ghost predicate Matches(sigs: seq<Vec>, d: Entry) {
    Hit(sigs, Val(d.sig))
  }

  ghost predicate Queries(sigs: seq<Vec>) {
    forall q :: q in sigs ==> IsSig(q)
  }

  /** hits are the documents of docs, with their multiplicity, that match. */
  ghost predicate Selected(docs: multiset<Entry>, sigs: seq<Vec>, hits: multiset<Entry>) {
    forall d :: hits[d] == if Matches(sigs, d) then docs[d] else 0
  }

  lemma {:induction false} SelectedOnce(docs: multiset<Entry>, sigs: seq<Vec>, a: multiset<Entry>, b: multiset<Entry>)
    requires Selected(docs, sigs, a) && Selected(docs, sigs, b)
    ensures a == b
  {
  }

  // ---------- the divisibility test ----------

  lemma {:induction false} ExactDivision(f: nat, g: nat, q: nat, r: nat)
    requires Divided(f, g, q, r)
    ensures Divides(g, f) <==> r == 0
  {
    if r == 0 {
      XorZero(Mul(q, g));
      assert Mul(q, g) == f;
    }
    if Divides(g, f) {
      var p :| Mul(p, g) == f;
      XorZero(f);
      LenZero(0);
      LenZero(g);
      DivisionUnique(f, g, q, r, p, 0);
    }
  }

  /** The remainder is computed only when the degrees allow it to be zero. */
  method TestDivides(sig: Vec, query: Vec) returns (divides: bool)
    requires IsSig(sig) && IsSig(query)
    ensures divides == Divides(Val(query), Val(sig))
  {
    LenZero(Val(sig));
    LenZero(Val(query));
    var dega := Degree(sig);
    var degb := Degree(query);
    var rem: Vec := [];
    if dega >= degb {
      rem := Remainder(sig, query);
      ghost var q :| Divided(Val(sig), Val(query), q, Val(rem));
      ExactDivision(Val(sig), Val(query), q, Val(rem));
      ValZero(rem);
    } else if Divides(Val(query), Val(sig)) {
      DividesLen(Val(query), Val(sig));
    }
    divides := |rem| == 1 && rem[0] == ZERO;
  }

  /** The list from its first divisor of the polynomial on. */
  ghost function FromFirst(a: nat, sigs: seq<Vec>): seq<Vec> {
    if sigs == [] then [] else if Divides(Val(sigs[0]), a) then sigs else FromFirst(a, sigs[1..])
  }

  /** The query signatures still worth asking below an entry: those from the
      first that divides the entry's signature.  None is left if none divides. */
  method Prune(sig: Vec, sigs: seq<Vec>) returns (rest: seq<Vec>)
    requires IsSig(sig) && Queries(sigs)
    ensures rest != [] <==> Hit(sigs, Val(sig))
    ensures Queries(rest) && rest == FromFirst(Val(sig), sigs) && forall q :: q in rest ==> q in sigs
    ensures forall a :: Divides(a, Val(sig)) ==> (Hit(rest, a) <==> Hit(sigs, a))
  {
    rest := sigs;
    while rest != []
      invariant Queries(rest) && FromFirst(Val(sig), rest) == FromFirst(Val(sig), sigs)
      invariant forall q :: q in rest ==> q in sigs
      invariant forall q :: q in sigs && q !in rest ==> !Divides(Val(q), Val(sig))
      decreases |rest|
    {
      var divides := TestDivides(sig, rest[0]);
      if divides {
        break;
      }
      rest := rest[1..];
    }
    forall a | Divides(a, Val(sig)) && Hit(sigs, a) ensures Hit(rest, a) {
      var q :| q in sigs && Divides(Val(q), a);
      DividesTrans(Val(q), a, Val(sig));
    }
    DividesSelf(Val(sig));
  }

  // ---------- the pruned search ----------

  /** The documents that the search meets below id, each as often as it meets it: it goes
      down where some query signature still asked divides the link's, and asks on with
      the ones from the first such on. */
  ghost function Met(db: Db, id: NodeId, n: nat, sigs: seq<Vec>): multiset<Entry>
    decreases n, 1, 0
  {
    if id in db then MetIn(db, db[id].kind == Leaf, db[id].entries, n, sigs) else multiset{}
  }

  ghost function MetIn(db: Db, leaf: bool, es: seq<Entry>, n: nat, sigs: seq<Vec>): multiset<Entry>
    decreases n, 0, |es| + 1
  {
    if es == [] then multiset{}
    else MetIn(db, leaf, es[..|es| - 1], n, sigs) + MetAt(db, leaf, es[|es| - 1], n, sigs)
  }

  ghost function MetAt(db: Db, leaf: bool, e: Entry, n: nat, sigs: seq<Vec>): multiset<Entry>
    decreases n, 0, 0
  {
    var rest := FromFirst(Val(e.sig), sigs);
    if rest == [] then multiset{}
    else if leaf then multiset{e}
    else if n == 0 || e.key.DocKey? then multiset{}
    else Met(db, e.key.id, n - 1, rest)
  }

  /** What a search below id returns, for any tree and for a covered one. */
  ghost predicate Answer(db: Db, id: NodeId, n: nat, sigs: seq<Vec>, hits: multiset<Entry>) {
    && (forall d :: d in hits ==> Matches(sigs, d) && d in Docs(db, id, n))
    && (forall d :: Found(db, id, n, d) && Matches(sigs, d) ==> d in hits)
    && (Covered(db) ==> Selected(Docs(db, id, n), sigs, hits))
  }

  /** The same for the entries of one node. */
  ghost predicate PartAnswer(db: Db, id: NodeId, n: nat, es: seq<Entry>, sigs: seq<Vec>, hits: multiset<Entry>)
    requires id in db
  {
    var leaf := db[id].kind == Leaf;
    && (forall d :: d in hits ==> Matches(sigs, d) && d in SumOf(db, leaf, es, n))
    && (forall d, e :: e in es && Reached(db, leaf, e, n, d) && Matches(sigs, d) ==> d in hits)
    && (Covered(db) ==> Selected(SumOf(db, leaf, es, n), sigs, hits))
  }

  ghost predicate Reached(db: Db, leaf: bool, e: Entry, n: nat, d: Entry) {
    if leaf then d == e else n > 0 && FoundVia(db, e, n - 1, d)
  }

  lemma {:induction false} PartsMakeAnswer(db: Db, id: NodeId, n: nat, sigs: seq<Vec>, hits: multiset<Entry>)
    requires id in db && PartAnswer(db, id, n, db[id].entries, sigs, hits)
    ensures Answer(db, id, n, sigs, hits)
  {
    forall d | Found(db, id, n, d) && Matches(sigs, d) ensures d in hits {
      var leaf := db[id].kind == Leaf;
      if leaf {
        assert Reached(db, leaf, d, n, d);
      } else {
        var e :| e in db[id].entries && FoundVia(db, e, n - 1, d);
        assert Reached(db, leaf, e, n, d);
      }
    }
  }

  /** One entry more, with the documents its branch returned. */
  lemma {:induction false} NextPart(db: Db, id: NodeId, n: nat, es: seq<Entry>, e: Entry, sigs: seq<Vec>,
                                    hits: multiset<Entry>, more: multiset<Entry>)
    requires id in db && PartAnswer(db, id, n, es, sigs, hits) && PartAnswer(db, id, n, [e], sigs, more)
    ensures PartAnswer(db, id, n, es + [e], sigs, hits + more)
  {
    SumAppend(db, db[id].kind == Leaf, es, [e], n);
  }

  lemma {:induction false} LeafPart(db: Db, id: NodeId, n: nat, e: Entry, sigs: seq<Vec>, hit: bool)
    requires id in db && db[id].kind == Leaf && hit == Matches(sigs, e)
    ensures PartAnswer(db, id, n, [e], sigs, if hit then multiset{e} else multiset{})
  {
    SumOne(db, true, e, n);
  }

  /** A branch none of the query signatures divides holds no match. */
  lemma {:induction false} PrunedPart(db: Db, id: NodeId, n: nat, e: Entry, sigs: seq<Vec>)
    requires id in db && db[id].kind != Leaf && e in db[id].entries && !Matches(sigs, e)
    ensures PartAnswer(db, id, n, [e], sigs, multiset{})
  {
    var none: multiset<Entry> := multiset{};
    forall d | Reached(db, false, e, n, d) ensures !Matches(sigs, d) {
      NoHitBelow(sigs, Val(d.sig), Val(e.sig));
    }
    SumOne(db, false, e, n);
    if Covered(db) {
      forall d ensures none[d] == if Matches(sigs, d) then SumOf(db, false, [e], n)[d] else 0 {
        if d in One(db, false, e, n) {
          BelowDivides(db, e.key.id, n - 1, Val(e.sig), d);
          NoHitBelow(sigs, Val(d.sig), Val(e.sig));
        }
      }
    }
  }

  lemma {:induction false} NoHitBelow(sigs: seq<Vec>, a: nat, b: nat)
    requires Divides(a, b) && !Hit(sigs, b)
    ensures !Hit(sigs, a)
  {
    if Hit(sigs, a) {
      var q :| q in sigs && Divides(Val(q), a);
      DividesTrans(Val(q), a, b);
    }
  }

  /** Dropping the signatures that failed at the link loses nothing below it. */
  lemma {:induction false} BranchPart(db: Db, id: NodeId, n: nat, e: Entry, sigs: seq<Vec>, rest: seq<Vec>,
                                      more: multiset<Entry>)
    requires id in db && db[id].kind != Leaf && e in db[id].entries && n > 0 && e.key.NodeKey? && e.key.id in db
    requires forall a :: Divides(a, Val(e.sig)) ==> (Hit(rest, a) <==> Hit(sigs, a))
    requires forall q :: q in rest ==> q in sigs
    requires Answer(db, e.key.id, n - 1, rest, more)
    ensures PartAnswer(db, id, n, [e], sigs, more)
  {
    SumOne(db, false, e, n);
    var below := Docs(db, e.key.id, n - 1);
    assert SumOf(db, false, [e], n) == below;
    forall d | d in more ensures Matches(sigs, d) {
      var q :| q in rest && Divides(Val(q), Val(d.sig));
      assert q in sigs;
    }
    if Covered(db) {
      forall d ensures more[d] == if Matches(sigs, d) then below[d] else 0 {
        if d in below {
          BelowDivides(db, e.key.id, n - 1, Val(e.sig), d);
        }
      }
    }
  }

  lemma {:induction false} MetNext(db: Db, leaf: bool, es: seq<Entry>, e: Entry, n: nat, sigs: seq<Vec>)
    ensures MetIn(db, leaf, es + [e], n, sigs) == MetIn(db, leaf, es, n, sigs) + MetAt(db, leaf, e, n, sigs)
  {
    assert (es + [e])[..|es|] == es;
  }

  /** queryProcess: numDocs grows by the number of hits. */
  method QueryProcess(db: Db, id: NodeId, sigs: seq<Vec>, numDocs: nat)
    returns (numDocs': nat, ghost hits: multiset<Entry>)
    requires Linked(db) && SigsOk(db) && Queries(sigs) && id in db
    ensures numDocs' == numDocs + |hits| && hits == Met(db, id, db[id].span.level, sigs)
    ensures Answer(db, id, db[id].span.level, sigs, hits)
    decreases db[id].span.level, 1
  {
    numDocs', hits := numDocs, multiset{};
    var entries := db[id].entries;
    for i := 0 to |entries|
      invariant numDocs' == numDocs + |hits|
      invariant hits == MetIn(db, db[id].kind == Leaf, entries[..i], db[id].span.level, sigs)
      invariant PartAnswer(db, id, db[id].span.level, entries[..i], sigs, hits)
    {
      ghost var more;
      numDocs', more := QueryEntry(db, id, entries[i], sigs, numDocs');
      NextPart(db, id, db[id].span.level, entries[..i], entries[i], sigs, hits, more);
      assert entries[..i + 1] == entries[..i] + [entries[i]];
      MetNext(db, db[id].kind == Leaf, entries[..i], entries[i], db[id].span.level, sigs);
      hits := hits + more;
    }
    assert entries[..|entries|] == entries;
    PartsMakeAnswer(db, id, db[id].span.level, sigs, hits);
  }

  /** One turn of the loop over a node's entries. */
  method QueryEntry(db: Db, id: NodeId, e: Entry, sigs: seq<Vec>, numDocs: nat)
    returns (numDocs': nat, ghost hits: multiset<Entry>)
    requires Linked(db) && SigsOk(db) && Queries(sigs) && id in db && e in db[id].entries
    ensures numDocs' == numDocs + |hits|
    ensures hits == MetAt(db, db[id].kind == Leaf, e, db[id].span.level, sigs)
    ensures PartAnswer(db, id, db[id].span.level, [e], sigs, hits)
    decreases db[id].span.level, 0
  {
    ghost var n := db[id].span.level;
    assert LinkOk(db, id, e) && IsSig(e.sig);
    var rest := Prune(e.sig, sigs);
    numDocs', hits := numDocs, multiset{};
    if rest != [] {
      if db[id].kind == Leaf {
        numDocs', hits := numDocs + 1, multiset{e};
      } else {
        numDocs', hits := QueryProcess(db, e.key.id, rest, numDocs);
      }
    }
    EntryMet(db, id, n, e, sigs, rest, hits);
    EntryPart(db, id, n, e, sigs, rest, hits);
  }

  lemma {:induction false} EntryMet(db: Db, id: NodeId, n: nat, e: Entry, sigs: seq<Vec>, rest: seq<Vec>,
                                    hits: multiset<Entry>)
    requires id in db && rest == FromFirst(Val(e.sig), sigs)
    requires rest == [] ==> hits == multiset{}
    requires rest != [] && db[id].kind == Leaf ==> hits == multiset{e}
    requires rest != [] && db[id].kind != Leaf ==> n > 0 && e.key.NodeKey? && hits == Met(db, e.key.id, n - 1, rest)
    ensures hits == MetAt(db, db[id].kind == Leaf, e, n, sigs)
  {
  }

  lemma {:induction false} EntryPart(db: Db, id: NodeId, n: nat, e: Entry, sigs: seq<Vec>, rest: seq<Vec>,
                                     hits: multiset<Entry>)
    requires id in db && e in db[id].entries && (rest != [] <==> Hit(sigs, Val(e.sig)))
    requires forall a :: Divides(a, Val(e.sig)) ==> (Hit(rest, a) <==> Hit(sigs, a))
    requires forall q :: q in rest ==> q in sigs
    requires rest == [] ==> hits == multiset{}
    requires rest != [] && db[id].kind == Leaf ==> hits == multiset{e}
    requires rest != [] && db[id].kind != Leaf ==>
               n > 0 && e.key.NodeKey? && e.key.id in db && Answer(db, e.key.id, n - 1, rest, hits)
    ensures PartAnswer(db, id, n, [e], sigs, hits)
  {
    if db[id].kind == Leaf {
      LeafPart(db, id, n, e, sigs, rest != []);
    } else if rest != [] {
      BranchPart(db, id, n, e, sigs, rest, hits);
    } else {
      PrunedPart(db, id, n, e, sigs);
    }
  }

  // ---------- the linear scan ----------

  method MatchesSome(sig: Vec, sigs: seq<Vec>) returns (matched: bool)
    requires IsSig(sig) && Queries(sigs)
    ensures matched == Hit(sigs, Val(sig))
  {
    for j := 0 to |sigs|
      invariant forall k :: 0 <= k < j ==> !Divides(Val(sigs[k]), Val(sig))
    {
      matched := TestDivides(sig, sigs[j]);
      if matched {
        return;
      }
    }
    matched := false;
  }

  lemma {:induction false} NextSelected(docs: multiset<Entry>, d: Entry, sigs: seq<Vec>, hits: multiset<Entry>)
    requires Selected(docs, sigs, hits)
    ensures Selected(docs + multiset{d}, sigs, if Matches(sigs, d) then hits + multiset{d} else hits)
  {
  }

  /** verifyProcess on the documents in the order of the file. */
  method VerifyProcess(docs: seq<Entry>, sigs: seq<Vec>) returns (numMatches: nat, ghost hits: multiset<Entry>)
    requires Queries(sigs) && forall d :: d in docs ==> IsSig(d.sig)
    ensures numMatches == |hits| && Selected(multiset(docs), sigs, hits)
  {
    numMatches, hits := 0, multiset{};
    for i := 0 to |docs|
      invariant numMatches == |hits| && Selected(multiset(docs[..i]), sigs, hits)
    {
      var matched := MatchesSome(docs[i].sig, sigs);
      NextSelected(multiset(docs[..i]), docs[i], sigs, hits);
      assert docs[..i + 1] == docs[..i] + [docs[i]];
      if matched {
        numMatches, hits := numMatches + 1, hits + multiset{docs[i]};
      }
    }
    assert docs[..|docs|] == docs;
  }

  /** On a sound index that holds exactly the documents of the file, the pruned
      search counts what the scan counts. */
  method QueryAgainstScan(db: Db, docs: seq<Entry>, sigs: seq<Vec>) returns (numDocs: nat, numMatches: nat)
    requires Sound(db) && Queries(sigs) && forall d :: d in docs ==> IsSig(d.sig)
    requires multiset(docs) == Docs(db, RootNode, Top(db))
    ensures numDocs == numMatches
  {
    ghost var hits, matches;
    numDocs, hits := QueryProcess(db, RootNode, sigs, 0);
    numMatches, matches := VerifyProcess(docs, sigs);
    SelectedOnce(multiset(docs), sigs, hits, matches);
  }
}
