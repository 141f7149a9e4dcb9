/** The expectation of util/filex/filex_test.go, proved of the model. */
module FilexTest {
  import Wrappers
  import opened Filex

  /** The example of util/filex/filex_test.go: the URL's path, split at its
      last slash, gives the file name unchanged. */
  lemma GetNameFromURLExample(dir: string, name: string)
    requires dir == "/fpimgnew/prod/bim/3FO3QX0J81W2/1/"
    requires name == "MY3AJ5YKTJX7AAABAAAAADY8.jpg"
    ensures GetNameFromURL(Wrappers.Some(dir + name)) == Wrappers.Success(name)
  {
    assert forall i :: 0 <= i < |name| ==> !Forbidden(name[i]);
    assert CleanName(name) == name;
    assert name != "." by { assert |name| != |"."|; }
    assert dir + name == dir + name + "";
    GetNameFromURLLastElement(dir + name + "", dir, name, "");
  }
}
