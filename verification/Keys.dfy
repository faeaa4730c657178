/** Natural keys: fields joined by '|', and the name patterns that keep some fields free of it. */
module Keys {

  predicate BarFree(s: string) {
    '|' !in s
  }

  /** ^[a-z_]{2,32}$ */
  predicate IsRelationName(s: string) {
    2 <= |s| <= 32 && forall i :: 0 <= i < |s| ==> 'a' <= s[i] <= 'z' || s[i] == '_'
  }

  /** ^[a-z]{2,6}$ */
  predicate IsTypePrefix(s: string) {
    2 <= |s| <= 6 && forall i :: 0 <= i < |s| ==> 'a' <= s[i] <= 'z'
  }

  function NaturalKey(subjectType: string, subjectId: string, relation: string, objectType: string, objectId: string): string {
    subjectType + "|" + (subjectId + "|" + (relation + "|" + (objectType + "|" + objectId)))
  }

  /** The first bar ends the first field. */
  lemma JoinInjective(a: string, rest: string, a': string, rest': string)
    requires BarFree(a) && BarFree(a')
    requires a + "|" + rest == a' + "|" + rest'
    ensures a == a' && rest == rest'
  {
    var s := a + "|" + rest;
    assert s[|a|] == '|' && s[|a'|] == '|';
    assert forall i :: 0 <= i < |a| ==> s[i] == a[i];
    assert forall i :: 0 <= i < |a'| ==> s[i] == a'[i];
    assert s[..|a|] == a && s[..|a'|] == a';
    assert s[|a| + 1..] == rest && s[|a'| + 1..] == rest';
  }

  /** Keys of bar-free subjects never mix subjects, whatever the other fields contain. */
  lemma KeyFixesSubject(st: string, sid: string, rel: string, ot: string, oid: string,
                        st': string, sid': string, rel': string, ot': string, oid': string)
    requires BarFree(st) && BarFree(sid) && BarFree(st') && BarFree(sid')
    requires NaturalKey(st, sid, rel, ot, oid) == NaturalKey(st', sid', rel', ot', oid')
    ensures st == st' && sid == sid'
    ensures rel + "|" + (ot + "|" + oid) == rel' + "|" + (ot' + "|" + oid')
  {
    JoinInjective(st, sid + "|" + (rel + "|" + (ot + "|" + oid)), st', sid' + "|" + (rel' + "|" + (ot' + "|" + oid')));
    JoinInjective(sid, rel + "|" + (ot + "|" + oid), sid', rel' + "|" + (ot' + "|" + oid'));
  }

  /** Only the object id may contain bars for the whole key to be injective. */
  lemma NaturalKeyInjective(st: string, sid: string, rel: string, ot: string, oid: string,
                            st': string, sid': string, rel': string, ot': string, oid': string)
    requires BarFree(st) && BarFree(sid) && BarFree(rel) && BarFree(ot)
    requires BarFree(st') && BarFree(sid') && BarFree(rel') && BarFree(ot')
    requires NaturalKey(st, sid, rel, ot, oid) == NaturalKey(st', sid', rel', ot', oid')
    ensures st == st' && sid == sid' && rel == rel' && ot == ot' && oid == oid'
  {
    KeyFixesSubject(st, sid, rel, ot, oid, st', sid', rel', ot', oid');
    JoinInjective(rel, ot + "|" + oid, rel', ot' + "|" + oid');
    JoinInjective(ot, oid, ot', oid');
  }

  /** At least two bars: enough for a relation, an object type and an object id. */
  predicate TwoBars(s: string) {
    exists i, j :: 0 <= i < j < |s| && s[i] == '|' && s[j] == '|'
  }

  lemma JoinedHasTwoBars(rel: string, ot: string, oid: string)
    ensures TwoBars(rel + "|" + (ot + "|" + oid))
  {
    var s := rel + "|" + (ot + "|" + oid);
    assert s[|rel|] == '|' && s[|rel| + 1 + |ot|] == '|';
  }

  lemma TwoBarsSplit(s: string) returns (rel: string, ot: string, oid: string)
    requires TwoBars(s)
    ensures s == rel + "|" + (ot + "|" + oid)
  {
    var i, j :| 0 <= i < j < |s| && s[i] == '|' && s[j] == '|';
    rel, ot, oid := s[..i], s[i + 1..j], s[j + 1..];
  }

  /** What every key of a subject starts with. */
  function SubjectPrefix(st: string, sid: string): string {
    st + "|" + (sid + "|")
  }

  lemma KeyOfSubject(st: string, sid: string, rel: string, ot: string, oid: string)
    ensures var p, key := SubjectPrefix(st, sid), NaturalKey(st, sid, rel, ot, oid);
      key == p + (rel + "|" + (ot + "|" + oid)) && p <= key && key[|p|..] == rel + "|" + (ot + "|" + oid)
  {
    var p, key := SubjectPrefix(st, sid), NaturalKey(st, sid, rel, ot, oid);
    assert key == p + (rel + "|" + (ot + "|" + oid));
  }

  /** A string is a key of the subject at some frame exactly when it starts with the subject
      and two more bars follow. */
  lemma KeyOfSubjectIff(key: string, st: string, sid: string)
    ensures SubjectPrefix(st, sid) <= key && TwoBars(key[|SubjectPrefix(st, sid)|..])
       <==> exists rel, ot, oid :: key == NaturalKey(st, sid, rel, ot, oid)
  {
    var p := SubjectPrefix(st, sid);
    if p <= key && TwoBars(key[|p|..]) {
      var rel, ot, oid := TwoBarsSplit(key[|p|..]);
      KeyOfSubject(st, sid, rel, ot, oid);
      assert key == p + key[|p|..];
      assert key == NaturalKey(st, sid, rel, ot, oid);
    }
    if rel, ot, oid :| key == NaturalKey(st, sid, rel, ot, oid) {
      KeyOfSubject(st, sid, rel, ot, oid);
      JoinedHasTwoBars(rel, ot, oid);
    }
  }

  /** Among bar-free types, a key starts with a bar-free subject exactly when it is of that type and
      its subject id is that id or continues it after a bar. */
  lemma KeyStartsWithSubject(st: string, sid: string, st': string, sid': string, rest: string)
    requires BarFree(st) && BarFree(sid) && BarFree(st')
    ensures SubjectPrefix(st, sid) <= SubjectPrefix(st', sid') + rest
       <==> st == st' && (sid == sid' || sid + "|" <= sid')
  {
    var p, whole := SubjectPrefix(st, sid), SubjectPrefix(st', sid') + rest;
    var tail := sid' + "|" + rest;
    assert whole == st' + "|" + tail;
    if p <= whole {
      assert whole == p + whole[|p|..];
      assert st + "|" + (sid + "|" + whole[|p|..]) == st' + "|" + tail;
      JoinInjective(st, sid + "|" + whole[|p|..], st', tail);
      StartsWithId(sid, sid', whole[|p|..], rest);
    }
    if st == st' && (sid == sid' || sid + "|" <= sid') {
      assert sid + "|" <= tail;
      assert p == st + "|" + (sid + "|");
    }
  }

  lemma StartsWithId(sid: string, sid': string, rest: string, rest': string)
    requires BarFree(sid) && sid + "|" + rest == sid' + "|" + rest'
    ensures sid == sid' || sid + "|" <= sid'
  {
    var s := sid + "|" + rest;
    assert s[|sid'|] == '|' && s[..|sid|] == sid && s[..|sid'|] == sid';
    assert forall i :: 0 <= i < |sid| ==> s[i] == sid[i] && s[i] != '|';
    if |sid'| > |sid| {
      assert s[..|sid'|][..|sid| + 1] == s[..|sid| + 1] == sid + "|";
    }
  }

  /** With a bar in a subject id two subjects share a key, even when every validated field is well formed. */
  lemma BarInSubjectIdCollides()
    ensures NaturalKey("usr", "a", "viewer", "doc", "b|viewer|doc|c") == NaturalKey("usr", "a|viewer|doc|b", "viewer", "doc", "c")
  {
    var k1 := NaturalKey("usr", "a", "viewer", "doc", "b|viewer|doc|c");
    var k2 := NaturalKey("usr", "a|viewer|doc|b", "viewer", "doc", "c");
    assert k1 == "usr|a|viewer|doc|b|viewer|doc|c";
    assert k2 == "usr|a|viewer|doc|b|viewer|doc|c";
  }

  /** So do two objects of one subject. */
  lemma BarInQueriedTypeCollides()
    ensures NaturalKey("usr", "a", "viewer", "doc|b", "c") == NaturalKey("usr", "a", "viewer", "doc", "b|c")
  {
    assert "doc|b" + "|" + "c" == "doc" + "|" + "b|c";
  }

  /** The two name patterns, by their characters. */
  lemma NamePatterns(s: string)
    ensures IsRelationName(s) <==> 2 <= |s| <= 32 && forall c :: c in s ==> c in "abcdefghijklmnopqrstuvwxyz_"
    ensures IsTypePrefix(s) <==> 2 <= |s| <= 6 && forall c :: c in s ==> c in "abcdefghijklmnopqrstuvwxyz"
  {
    forall c: char ensures 'a' <= c <= 'z' <==> c in "abcdefghijklmnopqrstuvwxyz" {
      var letters := "abcdefghijklmnopqrstuvwxyz";
      if 'a' <= c <= 'z' {
        assert letters[c as int - 'a' as int] == c;
      }
    }
    forall c ensures c in "abcdefghijklmnopqrstuvwxyz_" <==> c in "abcdefghijklmnopqrstuvwxyz" || c == '_' {
      assert "abcdefghijklmnopqrstuvwxyz_" == "abcdefghijklmnopqrstuvwxyz" + "_";
    }
    assert forall i :: 0 <= i < |s| ==> s[i] in s;
  }
}
