/**
 * The three selection catalogs offered by the prompts, and the per-category
 * tables that map a selection value to the (package, version) pairs the
 * manifest patch writes into `dependencies`.
 */
module Catalog {

  /** The three independent multi-select categories. */
  datatype Category = Ui | StateManagement | Common

  /** One entry of a checkbox prompt: the text shown (colouring dropped) and the value returned. */
  datatype Choice = Choice(text: string, value: string)

  /** The sentinel value that opts a category out. */
  const NoneValue: string := "None"

  /** The choices of a category, in the order the prompt lists them. */
  function Choices(c: Category): seq<Choice> {
    match c
    case Ui => [
      Choice("MUI", "MUI"),
      Choice("Chakra UI", "Chakra UI"),
      Choice("Ant Design", "Ant Design"),
      Choice("None", "None"),
      Choice("Bootstrap", "Bootstrap"),
      Choice("Semantic UI React", "Semantic UI React"),
      Choice("Tailwind CSS", "Tailwind CSS"),
      Choice("Blueprint", "Blueprint"),
      Choice("Evergreen", "Evergreen")
    ]
    case StateManagement => [
      Choice("Redux", "Redux"),
      Choice("Zustand", "Zustand"),
      Choice("Recoil", "Recoil"),
      Choice("MobX", "MobX"),
      Choice("None", "None"),
      Choice("XState", "XState"),
      Choice("Jotai", "Jotai"),
      Choice("React Query", "React Query"),
      Choice("Apollo Client", "Apollo Client")
    ]
    case Common => [
      Choice("Axios (HTTP client)", "axios"),
      Choice("React Router DOM (Routing)", "react-router-dom"),
      Choice("Lodash (Utility functions)", "lodash"),
      Choice("None", "None"),
      Choice("Moment (Date manipulation)", "moment"),
      Choice("React Hook Form (Form handling)", "react-hook-form"),
      Choice("Formik (Form handling)", "formik"),
      Choice("Yup (Validation)", "yup"),
      Choice("Classnames (Conditionally add class names)", "classnames")
    ]
  }

  /** The values a category's prompt can return. */
  function Values(c: Category): seq<string> {
    seq(|Choices(c)|, k requires 0 <= k < |Choices(c)| => Choices(c)[k].value)
  }

  /** The pairs the `switch` of a category writes for one selection value, in the order written. */
  function Table(c: Category, lib: string): seq<(string, string)> {
    match c
    case Ui =>
      if lib == "MUI" then
        [("@mui/material", "^5.14.11"), ("@emotion/react", "^11.11.1"), ("@emotion/styled", "^11.11.0")]
      else if lib == "Chakra UI" then
        [("@chakra-ui/react", "^2.7.2"), ("@emotion/react", "^11.11.1"), ("@emotion/styled", "^11.11.0")]
      else if lib == "Ant Design" then [("antd", "^5.9.1")]
      else if lib == "Bootstrap" then [("bootstrap", "^5.3.1")]
      else if lib == "Tailwind CSS" then [("tailwindcss", "^3.3.3")]
      else []
    case StateManagement =>
      if lib == "Redux" then [("redux", "^4.2.1"), ("react-redux", "^8.1.1")]
      else if lib == "Zustand" then [("zustand", "^4.4.0")]
      else if lib == "Recoil" then [("recoil", "^0.7.7")]
      else if lib == "MobX" then [("mobx", "^6.10.2"), ("mobx-react", "^7.6.0")]
      else if lib == "React Query" then [("react-query", "^3.39.3")]
      else []
    case Common =>
      if lib == "axios" then [("axios", "^1.7.4")]
      else if lib == "react-router-dom" then [("react-router-dom", "^6.26.1")]
      else if lib == "lodash" then [("lodash", "^4.17.21")]
      else if lib == "moment" then [("moment", "^2.29.4")]
      else if lib == "react-hook-form" then [("react-hook-form", "^7.45.1")]
      else if lib == "formik" then [("formik", "^2.4.2")]
      else if lib == "yup" then [("yup", "^1.2.0")]
      else if lib == "classnames" then [("classnames", "^2.3.2")]
      else []
  }

  /**
   * The one version every table gives to a package: an independent, single
   * definition of the version constraints, against which the tables are checked.
   */
  const Versions: map<string, string> := map[
    "@mui/material" := "^5.14.11",
    "@emotion/react" := "^11.11.1",
    "@emotion/styled" := "^11.11.0",
    "@chakra-ui/react" := "^2.7.2",
    "antd" := "^5.9.1",
    "bootstrap" := "^5.3.1",
    "tailwindcss" := "^3.3.3",
    "redux" := "^4.2.1",
    "react-redux" := "^8.1.1",
    "zustand" := "^4.4.0",
    "recoil" := "^0.7.7",
    "mobx" := "^6.10.2",
    "mobx-react" := "^7.6.0",
    "react-query" := "^3.39.3",
    "axios" := "^1.7.4",
    "react-router-dom" := "^6.26.1",
    "lodash" := "^4.17.21",
    "moment" := "^2.29.4",
    "react-hook-form" := "^7.45.1",
    "formik" := "^2.4.2",
    "yup" := "^1.2.0",
    "classnames" := "^2.3.2"
  ]

  /** The packages a table row names. */
  function TableKeys(c: Category, lib: string): set<string> {
    set k | 0 <= k < |Table(c, lib)| :: Table(c, lib)[k].0
  }

  /**
   * Every pair in every table carries the version `Versions` gives its package,
   * so a package written by two selections (`@emotion/react` under MUI and
   * under Chakra UI) is written with one version.
   */
  lemma TableAgreesWithVersions(c: Category, lib: string, k: nat)
    requires k < |Table(c, lib)|
    ensures Table(c, lib)[k].0 in Versions
    ensures Versions[Table(c, lib)[k].0] == Table(c, lib)[k].1
  {
    match c
    case Ui => UiRowsAgree(lib, k);
    case StateManagement => StateRowsAgree(lib, k);
    case Common => CommonRowsAgree(lib, k);
  }

  lemma UiRowsAgree(lib: string, k: nat)
    requires k < |Table(Ui, lib)|
    ensures Table(Ui, lib)[k].0 in Versions && Versions[Table(Ui, lib)[k].0] == Table(Ui, lib)[k].1
  {
  }

  lemma StateRowsAgree(lib: string, k: nat)
    requires k < |Table(StateManagement, lib)|
    ensures Table(StateManagement, lib)[k].0 in Versions
    ensures Versions[Table(StateManagement, lib)[k].0] == Table(StateManagement, lib)[k].1
  {
  }

  lemma CommonRowsAgree(lib: string, k: nat)
    requires k < |Table(Common, lib)|
    ensures Table(Common, lib)[k].0 in Versions && Versions[Table(Common, lib)[k].0] == Table(Common, lib)[k].1
  {
  }

  /** Only catalog values other than "None" have table rows. */
  lemma TableOnlyForCatalogValues(c: Category, lib: string)
    requires Table(c, lib) != []
    ensures lib in Values(c) && lib != NoneValue
  {
    match c
    case Ui =>
      assert Values(Ui) == ["MUI", "Chakra UI", "Ant Design", "None", "Bootstrap",
                            "Semantic UI React", "Tailwind CSS", "Blueprint", "Evergreen"];
    case StateManagement =>
      assert Values(StateManagement) == ["Redux", "Zustand", "Recoil", "MobX", "None",
                                         "XState", "Jotai", "React Query", "Apollo Client"];
    case Common =>
      assert Values(Common) == ["axios", "react-router-dom", "lodash", "None", "moment",
                                "react-hook-form", "formik", "yup", "classnames"];
  }

  /** Every prompt offers the "None" sentinel. */
  lemma NoneOffered(c: Category)
    ensures NoneValue in Values(c)
  {
    match c
    case Ui => assert Values(Ui)[3] == NoneValue;
    case StateManagement => assert Values(StateManagement)[4] == NoneValue;
    case Common => assert Values(Common)[3] == NoneValue;
  }

  /** The catalog values the `switch` statements have no `case` for. */
  predicate Unmapped(c: Category, lib: string) {
    match c
    case Ui => lib in {"Semantic UI React", "Blueprint", "Evergreen"}
    case StateManagement => lib in {"XState", "Jotai", "Apollo Client"}
    case Common => false
  }

  /**
   * Among the values a prompt offers, other than "None", exactly the unmapped
   * ones have no table rows: they are accepted by the prompt and add nothing.
   */
  lemma UnmappedExactly(c: Category, lib: string)
    requires lib in Values(c) && lib != NoneValue
    ensures Table(c, lib) == [] <==> Unmapped(c, lib)
  {
    match c
    case Ui => UiUnmappedExactly(lib);
    case StateManagement => StateUnmappedExactly(lib);
    case Common => CommonUnmappedExactly(lib);
  }

  lemma UiUnmappedExactly(lib: string)
    requires lib in Values(Ui) && lib != NoneValue
    ensures Table(Ui, lib) == [] <==> Unmapped(Ui, lib)
  {
    assert Values(Ui) == ["MUI", "Chakra UI", "Ant Design", "None", "Bootstrap",
                          "Semantic UI React", "Tailwind CSS", "Blueprint", "Evergreen"];
  }

  lemma StateUnmappedExactly(lib: string)
    requires lib in Values(StateManagement) && lib != NoneValue
    ensures Table(StateManagement, lib) == [] <==> Unmapped(StateManagement, lib)
  {
    assert Values(StateManagement) == ["Redux", "Zustand", "Recoil", "MobX", "None",
                                       "XState", "Jotai", "React Query", "Apollo Client"];
  }

  lemma CommonUnmappedExactly(lib: string)
    requires lib in Values(Common) && lib != NoneValue
    ensures Table(Common, lib) == [] <==> Unmapped(Common, lib)
  {
    assert Values(Common) == ["axios", "react-router-dom", "lodash", "None", "moment",
                              "react-hook-form", "formik", "yup", "classnames"];
  }
}
