/** `ClusterRoleBinding`'s subject accessors. */
module ClusterRoleBindings {
  import opened Wrappers
  import Text

  datatype SubjectKind = Group | ServiceAccount | User

  datatype Subject = Subject(kind: SubjectKind, name: string, apiGroup: Option<string>, namespace: Option<string>)

  datatype RoleRef = RoleRef(kind: string, name: string, apiGroup: Option<string>)

  /** The binding's `subjects` field is optional. */
  datatype ClusterRoleBinding = ClusterRoleBinding(subjects: Option<seq<Subject>>, roleRef: RoleRef)

  /** `getSubjects()`: `this.subjects || []`. */
  function GetSubjects(b: ClusterRoleBinding): (r: seq<Subject>)
    ensures b.subjects.None? ==> r == []
    ensures b.subjects.Some? ==> r == b.subjects.value
  {
    if b.subjects.Some? then b.subjects.value else []
  }

  function Names(subjects: seq<Subject>): (r: seq<string>)
    ensures |r| == |subjects|
    ensures forall i :: 0 <= i < |subjects| ==> r[i] == subjects[i].name
  {
    seq(|subjects|, i requires 0 <= i < |subjects| => subjects[i].name)
  }

  /** `getSubjectNames()`: the names joined by ", ". */
  function GetSubjectNames(b: ClusterRoleBinding): (r: string)
    ensures GetSubjects(b) == [] ==> r == ""
    ensures |GetSubjects(b)| == 1 ==> r == GetSubjects(b)[0].name
  {
    Text.Join(Names(GetSubjects(b)), ", ")
  }

  /** Joining one more part appends the separator and the part. */
  lemma {:induction false} JoinSnoc(parts: seq<string>, p: string, sep: string)
    ensures Text.Join(parts + [p], sep) == if parts == [] then p else Text.Join(parts, sep) + sep + p
    decreases |parts|
  {
    if |parts| >= 2 {
      assert (parts + [p])[1..] == parts[1..] + [p];
      JoinSnoc(parts[1..], p, sep);
    } else if |parts| == 1 {
      assert (parts + [p])[1..] == [p];
    }
  }

  /** The names appear in subject order: adding a subject at the end adds
      ", " and its name at the end. */
  lemma SubjectNamesInOrder(subjects: seq<Subject>, s: Subject, roleRef: RoleRef)
    ensures GetSubjectNames(ClusterRoleBinding(Some(subjects + [s]), roleRef)) ==
              if subjects == [] then s.name
              else GetSubjectNames(ClusterRoleBinding(Some(subjects), roleRef)) + ", " + s.name
  {
    assert Names(subjects + [s]) == Names(subjects) + [s.name];
    JoinSnoc(Names(subjects), s.name, ", ");
  }
}
