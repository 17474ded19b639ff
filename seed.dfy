/** The 25 rows the table starts with. */
module Seed {
  import opened Values

  /** name, email, age, role, department, location */
  type Person = (string, string, int, string, string, string)

  function PersonRow(p: Person): (r: Record)
    ensures r.Keys == {"name", "email", "age", "role", "department", "location"}
  {
    map["name" := Text(p.0), "email" := Text(p.1), "age" := Num(p.2),
        "role" := Text(p.3), "department" := Text(p.4), "location" := Text(p.5)]
  }

  const People: seq<Person> := [
    ("Alice", "alice@example.com", 25, "Developer", "IT", "Hyderabad"),
    ("Bob", "bob@example.com", 30, "Designer", "UI/UX", "Mumbai"),
    ("Charlie", "charlie@example.com", 28, "Tester", "QA", "Delhi"),
    ("David", "david@example.com", 32, "Manager", "Admin", "Pune"),
    ("Emma", "emma@example.com", 27, "Developer", "IT", "Bangalore"),
    ("Frank", "frank@example.com", 35, "Analyst", "Finance", "Chennai"),
    ("Grace", "grace@example.com", 29, "Designer", "UI/UX", "Kolkata"),
    ("Hannah", "hannah@example.com", 31, "Tester", "QA", "Delhi"),
    ("Ian", "ian@example.com", 26, "Developer", "IT", "Hyderabad"),
    ("Jack", "jack@example.com", 33, "Manager", "Admin", "Pune"),
    ("Kate", "kate@example.com", 24, "Intern", "HR", "Delhi"),
    ("Leo", "leo@example.com", 29, "Analyst", "Finance", "Chennai"),
    ("Mia", "mia@example.com", 34, "Lead", "IT", "Hyderabad"),
    ("Nick", "nick@example.com", 27, "Tester", "QA", "Bangalore"),
    ("Olivia", "olivia@example.com", 25, "Developer", "IT", "Pune"),
    ("Paul", "paul@example.com", 30, "Designer", "UI/UX", "Kolkata"),
    ("Quinn", "quinn@example.com", 31, "Manager", "Admin", "Delhi"),
    ("Rose", "rose@example.com", 28, "Analyst", "Finance", "Chennai"),
    ("Steve", "steve@example.com", 32, "Tester", "QA", "Bangalore"),
    ("Tina", "tina@example.com", 29, "Developer", "IT", "Hyderabad"),
    ("Uma", "uma@example.com", 33, "Manager", "Admin", "Pune"),
    ("Victor", "victor@example.com", 35, "Analyst", "Finance", "Kolkata"),
    ("Wendy", "wendy@example.com", 27, "Designer", "UI/UX", "Mumbai"),
    ("Xavier", "xavier@example.com", 26, "Developer", "IT", "Chennai"),
    ("Yara", "yara@example.com", 34, "Lead", "HR", "Delhi")
  ]

  /** `initialData` */
  const SeedRows: seq<Record> := seq(|People|, i requires 0 <= i < |People| => PersonRow(People[i]))

  /** Every built-in row has a field, so an empty search shows all of them. */
  lemma SeedRowsHaveFields()
    ensures |SeedRows| == 25
    ensures forall i :: 0 <= i < |SeedRows| ==> "name" in SeedRows[i] && |SeedRows[i]| > 0
  {
    forall i | 0 <= i < |SeedRows|
      ensures "name" in SeedRows[i] && |SeedRows[i]| > 0
    {
      var r := SeedRows[i];
      assert "name" in r.Keys;
      assert |r.Keys| > 0;
    }
  }
}
